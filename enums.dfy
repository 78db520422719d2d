/** Operator descriptions: `describe_xop` (asteria/src/runtime/enums.cpp), a total mapping
    from the operator enumeration to the text used in diagnostics. */
module Enums {
  import opened Wrappers

  /** The operators `describe_xop` lists, in the order of its `switch`, plus any other
      enumerator value, which falls to the `default` label. */
  datatype Xop =
    | IncPost | DecPost | Subscr
    | Pos | Neg | NotB | NotL | IncPre | DecPre | Unset | CountOf | TypeOf
    | Sqrt | IsNan | IsInf | Abs | Sign | Round | Floor | Ceil | Trunc
    | RoundI | FloorI | CeilI | TruncI
    | CmpEq | CmpNe | CmpLt | CmpGt | CmpLte | CmpGte | Cmp3Way
    | Add | Sub | Mul | Div | Mod | Sll | Srl | Sla | Sra | AndB | OrB | XorB | Assign
    | Fma | Head | Tail
    | Unlisted(code: nat)

  /** `describe_xop(xop)`. */
  function DescribeXop(xop: Xop): string
  {
    match xop
    case IncPost => "postfix `++`"
    case DecPost => "postfix `--`"
    case Subscr => "postfix `[]`"
    case Pos => "prefix `+`"
    case Neg => "prefix `-`"
    case NotB => "prefix `~`"
    case NotL => "prefix `!`"
    case IncPre => "prefix `++`"
    case DecPre => "prefix `--`"
    case Unset => "prefix `unset`"
    case CountOf => "prefix `countof`"
    case TypeOf => "prefix `typeof`"
    case Sqrt => "prefix `__sqrt`"
    case IsNan => "prefix `__isnan`"
    case IsInf => "prefix `__isinf`"
    case Abs => "prefix `__abs`"
    case Sign => "prefix `__sign`"
    case Round => "prefix `__round`"
    case Floor => "prefix `__floor`"
    case Ceil => "prefix `__ceil`"
    case Trunc => "prefix `__trunc`"
    case RoundI => "prefix `__roundi`"
    case FloorI => "prefix `__floori`"
    case CeilI => "prefix `__ceili`"
    case TruncI => "prefix `__trunci`"
    case CmpEq => "infix `==`"
    case CmpNe => "infix `!=`"
    case CmpLt => "infix `<`"
    case CmpGt => "infix `>`"
    case CmpLte => "infix `<=`"
    case CmpGte => "infix `>=`"
    case Cmp3Way => "infix `<=>`"
    case Add => "infix `+`"
    case Sub => "infix `-`"
    case Mul => "infix `*`"
    case Div => "infix `/`"
    case Mod => "infix `%`"
    case Sll => "infix `<<<`"
    case Srl => "infix `>>>`"
    case Sla => "infix `<<`"
    case Sra => "infix `>>`"
    case AndB => "infix `&`"
    case OrB => "infix `|`"
    case XorB => "infix `^`"
    case Assign => "infix `=`"
    case Fma => "prefix `__fma`"
    case Head => "postfix `[^]`"
    case Tail => "postfix `[$]`"
    case Unlisted(_) => "<unknown operator>"
  }

  // ---------------------------------------------------------------------------
  // An independent reading of the table: where the operator sits and how it is spelt.

  datatype Fixity = Prefix | Postfix | Infix

  function FixityWord(f: Fixity): string
  {
    match f
    case Prefix => "prefix"
    case Postfix => "postfix"
    case Infix => "infix"
  }

  /** Where a listed operator is written relative to its operands. */
  function FixityOf(xop: Xop): Fixity
    requires !xop.Unlisted?
  {
    match xop
    case IncPost | DecPost | Subscr | Head | Tail => Postfix
    case CmpEq | CmpNe | CmpLt | CmpGt | CmpLte | CmpGte | Cmp3Way => Infix
    case Add | Sub | Mul | Div | Mod | Sll | Srl | Sla | Sra | AndB | OrB | XorB | Assign => Infix
    case _ => Prefix
  }

  /** The source spelling of a listed operator. */
  function Spelling(xop: Xop): string
    requires !xop.Unlisted?
  {
    match xop
    case IncPost | IncPre => "++"
    case DecPost | DecPre => "--"
    case Subscr => "[]"
    case Pos | Add => "+"
    case Neg | Sub => "-"
    case NotB => "~"
    case NotL => "!"
    case Unset => "unset"
    case CountOf => "countof"
    case TypeOf => "typeof"
    case Sqrt => "__sqrt"
    case IsNan => "__isnan"
    case IsInf => "__isinf"
    case Abs => "__abs"
    case Sign => "__sign"
    case Round => "__round"
    case Floor => "__floor"
    case Ceil => "__ceil"
    case Trunc => "__trunc"
    case RoundI => "__roundi"
    case FloorI => "__floori"
    case CeilI => "__ceili"
    case TruncI => "__trunci"
    case CmpEq => "=="
    case CmpNe => "!="
    case CmpLt => "<"
    case CmpGt => ">"
    case CmpLte => "<="
    case CmpGte => ">="
    case Cmp3Way => "<=>"
    case Mul => "*"
    case Div => "/"
    case Mod => "%"
    case Sll => "<<<"
    case Srl => ">>>"
    case Sla => "<<"
    case Sra => ">>"
    case AndB => "&"
    case OrB => "|"
    case XorB => "^"
    case Assign => "="
    case Fma => "__fma"
    case Head => "[^]"
    case Tail => "[$]"
  }

  /** The built-in prefix functions (`__sqrt` to `__trunci`, and `__fma`). */
  predicate IsBuiltin(xop: Xop)
  {
    xop.Sqrt? || xop.IsNan? || xop.IsInf? || xop.Abs? || xop.Sign? || xop.Round? || xop.Floor? || xop.Ceil? || xop.Trunc? || xop.RoundI? || xop.FloorI? || xop.CeilI? || xop.TruncI? || xop.Fma?
  }

  lemma PrefixShape(xop: Xop)
    requires !xop.Unlisted? && FixityOf(xop) == Prefix && !IsBuiltin(xop)
    ensures DescribeXop(xop) == FixityWord(Prefix) + " `" + Spelling(xop) + "`"
  {
    match xop
    case Pos =>
    case Neg =>
    case NotB =>
    case NotL =>
    case IncPre =>
    case DecPre =>
    case Unset =>
    case CountOf =>
    case TypeOf =>
  }

  lemma BuiltinShape(xop: Xop)
    requires IsBuiltin(xop)
    ensures !xop.Unlisted? && FixityOf(xop) == Prefix
    ensures DescribeXop(xop) == FixityWord(Prefix) + " `" + Spelling(xop) + "`"
  {
    if xop.Sqrt? || xop.IsNan? || xop.IsInf? || xop.Abs? || xop.Sign? || xop.Fma? {
      MathBuiltinShape(xop);
    } else {
      RoundingBuiltinShape(xop);
    }
  }

  /** `BuiltinShape` for the arithmetic built-ins. */
  lemma MathBuiltinShape(xop: Xop)
    requires xop.Sqrt? || xop.IsNan? || xop.IsInf? || xop.Abs? || xop.Sign? || xop.Fma?
    ensures !xop.Unlisted? && FixityOf(xop) == Prefix
    ensures DescribeXop(xop) == FixityWord(Prefix) + " `" + Spelling(xop) + "`"
  {
    match xop
    case Sqrt =>
    case IsNan =>
    case IsInf =>
    case Abs =>
    case Sign =>
    case Fma =>
  }

  /** `BuiltinShape` for the rounding built-ins. */
  lemma RoundingBuiltinShape(xop: Xop)
    requires xop.Round? || xop.Floor? || xop.Ceil? || xop.Trunc? || xop.RoundI? || xop.FloorI? || xop.CeilI? || xop.TruncI?
    ensures !xop.Unlisted? && FixityOf(xop) == Prefix
    ensures DescribeXop(xop) == FixityWord(Prefix) + " `" + Spelling(xop) + "`"
  {
    match xop
    case Round =>
    case Floor =>
    case Ceil =>
    case Trunc =>
    case RoundI =>
    case FloorI =>
    case CeilI =>
    case TruncI =>
  }

  lemma PostfixShape(xop: Xop)
    requires !xop.Unlisted? && FixityOf(xop) == Postfix
    ensures DescribeXop(xop) == FixityWord(Postfix) + " `" + Spelling(xop) + "`"
  {
    match xop
    case IncPost =>
    case DecPost =>
    case Subscr =>
    case Head =>
    case Tail =>
  }

  lemma InfixShape(xop: Xop)
    requires !xop.Unlisted? && FixityOf(xop) == Infix
    ensures DescribeXop(xop) == FixityWord(Infix) + " `" + Spelling(xop) + "`"
  {
    if xop.CmpEq? || xop.CmpNe? || xop.CmpLt? || xop.CmpGt? || xop.CmpLte? || xop.CmpGte? || xop.Cmp3Way? {
      ComparisonShape(xop);
    } else if xop.Add? || xop.Sub? || xop.Mul? || xop.Div? || xop.Mod? {
      ArithmeticShape(xop);
    } else if xop.Sll? || xop.Srl? || xop.Sla? || xop.Sra? {
      ShiftShape(xop);
    } else {
      BitwiseShape(xop);
    }
  }


  /** `InfixShape` for the comparison operators. */
  lemma ComparisonShape(xop: Xop)
    requires xop.CmpEq? || xop.CmpNe? || xop.CmpLt? || xop.CmpGt? || xop.CmpLte? || xop.CmpGte? || xop.Cmp3Way?
    ensures DescribeXop(xop) == FixityWord(Infix) + " `" + Spelling(xop) + "`"
  {
    match xop
    case CmpEq =>
    case CmpNe =>
    case CmpLt =>
    case CmpGt =>
    case CmpLte =>
    case CmpGte =>
    case Cmp3Way =>
  }

  /** `InfixShape` for the arithmetic operators. */
  lemma ArithmeticShape(xop: Xop)
    requires xop.Add? || xop.Sub? || xop.Mul? || xop.Div? || xop.Mod?
    ensures DescribeXop(xop) == FixityWord(Infix) + " `" + Spelling(xop) + "`"
  {
    match xop
    case Add =>
    case Sub =>
    case Mul =>
    case Div =>
    case Mod =>
  }

  /** `InfixShape` for the shift operators. */
  lemma ShiftShape(xop: Xop)
    requires xop.Sll? || xop.Srl? || xop.Sla? || xop.Sra?
    ensures DescribeXop(xop) == FixityWord(Infix) + " `" + Spelling(xop) + "`"
  {
    match xop
    case Sll =>
    case Srl =>
    case Sla =>
    case Sra =>
  }

  /** `InfixShape` for the bitwise operators and assignment. */
  lemma BitwiseShape(xop: Xop)
    requires xop.AndB? || xop.OrB? || xop.XorB? || xop.Assign?
    ensures DescribeXop(xop) == FixityWord(Infix) + " `" + Spelling(xop) + "`"
  {
    match xop
    case AndB =>
    case OrB =>
    case XorB =>
    case Assign =>
  }

  /** Every listed operator is described as its fixity, a space, and its spelling in
      backquotes; everything else is `<unknown operator>`. */
  lemma DescriptionShape(xop: Xop)
    ensures xop.Unlisted? ==> DescribeXop(xop) == "<unknown operator>"
    ensures !xop.Unlisted? ==>
      DescribeXop(xop) == FixityWord(FixityOf(xop)) + " `" + Spelling(xop) + "`"
  {
    if !xop.Unlisted? {
      match FixityOf(xop)
      case Prefix =>
        if IsBuiltin(xop) { BuiltinShape(xop); } else { PrefixShape(xop); }
      case Postfix => PostfixShape(xop);
      case Infix => InfixShape(xop);
    }
  }

  // ---------------------------------------------------------------------------
  // The descriptions identify the operators.

  /** Recovers the operator from its description, if it is one of the listed ones. */
  function XopOfDescription(text: string): Option<Xop>
  {
    match text
    case "postfix `++`" => Some(IncPost)
    case "postfix `--`" => Some(DecPost)
    case "postfix `[]`" => Some(Subscr)
    case "prefix `+`" => Some(Pos)
    case "prefix `-`" => Some(Neg)
    case "prefix `~`" => Some(NotB)
    case "prefix `!`" => Some(NotL)
    case "prefix `++`" => Some(IncPre)
    case "prefix `--`" => Some(DecPre)
    case "prefix `unset`" => Some(Unset)
    case "prefix `countof`" => Some(CountOf)
    case "prefix `typeof`" => Some(TypeOf)
    case "prefix `__sqrt`" => Some(Sqrt)
    case "prefix `__isnan`" => Some(IsNan)
    case "prefix `__isinf`" => Some(IsInf)
    case "prefix `__abs`" => Some(Abs)
    case "prefix `__sign`" => Some(Sign)
    case "prefix `__round`" => Some(Round)
    case "prefix `__floor`" => Some(Floor)
    case "prefix `__ceil`" => Some(Ceil)
    case "prefix `__trunc`" => Some(Trunc)
    case "prefix `__roundi`" => Some(RoundI)
    case "prefix `__floori`" => Some(FloorI)
    case "prefix `__ceili`" => Some(CeilI)
    case "prefix `__trunci`" => Some(TruncI)
    case "infix `==`" => Some(CmpEq)
    case "infix `!=`" => Some(CmpNe)
    case "infix `<`" => Some(CmpLt)
    case "infix `>`" => Some(CmpGt)
    case "infix `<=`" => Some(CmpLte)
    case "infix `>=`" => Some(CmpGte)
    case "infix `<=>`" => Some(Cmp3Way)
    case "infix `+`" => Some(Add)
    case "infix `-`" => Some(Sub)
    case "infix `*`" => Some(Mul)
    case "infix `/`" => Some(Div)
    case "infix `%`" => Some(Mod)
    case "infix `<<<`" => Some(Sll)
    case "infix `>>>`" => Some(Srl)
    case "infix `<<`" => Some(Sla)
    case "infix `>>`" => Some(Sra)
    case "infix `&`" => Some(AndB)
    case "infix `|`" => Some(OrB)
    case "infix `^`" => Some(XorB)
    case "infix `=`" => Some(Assign)
    case "prefix `__fma`" => Some(Fma)
    case "postfix `[^]`" => Some(Head)
    case "postfix `[$]`" => Some(Tail)
    case _ => None
  }

  lemma PrefixRoundTrip(xop: Xop)
    requires !xop.Unlisted? && FixityOf(xop) == Prefix && !IsBuiltin(xop)
    ensures XopOfDescription(DescribeXop(xop)) == Some(xop)
  {
    match xop
    case Pos =>
    case Neg =>
    case NotB =>
    case NotL =>
    case IncPre =>
    case DecPre =>
    case Unset =>
    case CountOf =>
    case TypeOf =>
  }

  lemma BuiltinRoundTrip(xop: Xop)
    requires IsBuiltin(xop)
    ensures XopOfDescription(DescribeXop(xop)) == Some(xop)
  {
    if xop.Sqrt? || xop.IsNan? || xop.IsInf? || xop.Abs? || xop.Sign? || xop.Fma? {
      MathBuiltinRoundTrip(xop);
    } else {
      RoundingBuiltinRoundTrip(xop);
    }
  }

  /** `BuiltinRoundTrip` for the arithmetic built-ins. */
  lemma MathBuiltinRoundTrip(xop: Xop)
    requires xop.Sqrt? || xop.IsNan? || xop.IsInf? || xop.Abs? || xop.Sign? || xop.Fma?
    ensures XopOfDescription(DescribeXop(xop)) == Some(xop)
  {
    match xop
    case Sqrt =>
    case IsNan =>
    case IsInf =>
    case Abs =>
    case Sign =>
    case Fma =>
  }

  /** `BuiltinRoundTrip` for the rounding built-ins. */
  lemma RoundingBuiltinRoundTrip(xop: Xop)
    requires xop.Round? || xop.Floor? || xop.Ceil? || xop.Trunc? || xop.RoundI? || xop.FloorI? || xop.CeilI? || xop.TruncI?
    ensures XopOfDescription(DescribeXop(xop)) == Some(xop)
  {
    match xop
    case Round =>
    case Floor =>
    case Ceil =>
    case Trunc =>
    case RoundI =>
    case FloorI =>
    case CeilI =>
    case TruncI =>
  }

  lemma PostfixRoundTrip(xop: Xop)
    requires !xop.Unlisted? && FixityOf(xop) == Postfix
    ensures XopOfDescription(DescribeXop(xop)) == Some(xop)
  {
    match xop
    case IncPost =>
    case DecPost =>
    case Subscr =>
    case Head =>
    case Tail =>
  }

  lemma InfixRoundTrip(xop: Xop)
    requires !xop.Unlisted? && FixityOf(xop) == Infix
    ensures XopOfDescription(DescribeXop(xop)) == Some(xop)
  {
    if xop.CmpEq? || xop.CmpNe? || xop.CmpLt? || xop.CmpGt? || xop.CmpLte? || xop.CmpGte? || xop.Cmp3Way? {
      ComparisonRoundTrip(xop);
    } else if xop.Add? || xop.Sub? || xop.Mul? || xop.Div? || xop.Mod? {
      ArithmeticRoundTrip(xop);
    } else if xop.Sll? || xop.Srl? || xop.Sla? || xop.Sra? {
      ShiftRoundTrip(xop);
    } else {
      BitwiseRoundTrip(xop);
    }
  }


  /** `InfixRoundTrip` for the comparison operators. */
  lemma ComparisonRoundTrip(xop: Xop)
    requires xop.CmpEq? || xop.CmpNe? || xop.CmpLt? || xop.CmpGt? || xop.CmpLte? || xop.CmpGte? || xop.Cmp3Way?
    ensures XopOfDescription(DescribeXop(xop)) == Some(xop)
  {
    match xop
    case CmpEq =>
    case CmpNe =>
    case CmpLt =>
    case CmpGt =>
    case CmpLte =>
    case CmpGte =>
    case Cmp3Way =>
  }

  /** `InfixRoundTrip` for the arithmetic operators. */
  lemma ArithmeticRoundTrip(xop: Xop)
    requires xop.Add? || xop.Sub? || xop.Mul? || xop.Div? || xop.Mod?
    ensures XopOfDescription(DescribeXop(xop)) == Some(xop)
  {
    match xop
    case Add =>
    case Sub =>
    case Mul =>
    case Div =>
    case Mod =>
  }

  /** `InfixRoundTrip` for the shift operators. */
  lemma ShiftRoundTrip(xop: Xop)
    requires xop.Sll? || xop.Srl? || xop.Sla? || xop.Sra?
    ensures XopOfDescription(DescribeXop(xop)) == Some(xop)
  {
    match xop
    case Sll =>
    case Srl =>
    case Sla =>
    case Sra =>
  }

  /** `InfixRoundTrip` for the bitwise operators and assignment. */
  lemma BitwiseRoundTrip(xop: Xop)
    requires xop.AndB? || xop.OrB? || xop.XorB? || xop.Assign?
    ensures XopOfDescription(DescribeXop(xop)) == Some(xop)
  {
    match xop
    case AndB =>
    case OrB =>
    case XorB =>
    case Assign =>
  }

  /** Reading a description back gives the operator it describes; the fallback text
      names no operator. */
  lemma DescriptionRoundTrip(xop: Xop)
    ensures XopOfDescription(DescribeXop(xop)) == if xop.Unlisted? then None else Some(xop)
  {
    if xop.Unlisted? {
    } else if IsBuiltin(xop) {
      BuiltinRoundTrip(xop);
    } else {
      match FixityOf(xop)
      case Prefix => PrefixRoundTrip(xop);
      case Postfix => PostfixRoundTrip(xop);
      case Infix => InfixRoundTrip(xop);
    }
  }

  /** Distinct listed operators have distinct descriptions. */
  lemma DescriptionsDistinct(x: Xop, y: Xop)
    requires !x.Unlisted? && !y.Unlisted? && x != y
    ensures DescribeXop(x) != DescribeXop(y)
  {
    DescriptionRoundTrip(x);
    DescriptionRoundTrip(y);
  }
}
