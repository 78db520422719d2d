/** `basic_insertable_streambuf` (asteria/src/rocket/insertable_streambuf.hpp): a stream
    buffer over a string. Writes append to the string, or insert at an optional caret and
    move the caret past what was written; reads go through a get area that spans the
    whole string and is tidied away (its consumed prefix erased) before any change. */
module Streambuf {
  import opened Wrappers

  /** `m_caret`: `npos`, or an index into the string. */
  datatype Caret = Npos | At(pos: nat)

  /** `int_type`: either end-of-file or a character. */
  datatype IntType = Eof | Char(c: char)

  /** `traits_type::not_eof(eof())`: the character with code zero, as in the standard
      character traits of the C++ library. */
  const NotEofOfEof: IntType := Char(0 as char)

  /** The exceptions `m_str.insert` throws: a position past the end, or a result longer
      than `max_size()`. */
  datatype Error = OutOfRange | LengthError

  // ---------------------------------------------------------------------------
  // Pure descriptions of the string operations.

  /** Where a write lands: the end of the string for `npos`, the caret otherwise. */
  function InsertionPoint(str: string, caret: Caret): nat
  {
    match caret
    case Npos => |str|
    case At(k) => k
  }

  /** A write of `text`: `insert(size(), text)` for `npos`, `insert(caret, text)` and an
      advanced caret otherwise. */
  function Put(str: string, caret: Caret, text: string, maxSize: nat): Result<(string, Caret), Error>
  {
    match caret
    case Npos =>
      if |str| + |text| > maxSize then Failure(LengthError)
      else Success((str + text, Npos))
    case At(k) =>
      if k > |str| then Failure(OutOfRange)
      else if |str| + |text| > maxSize then Failure(LengthError)
      else Success((str[..k] + text + str[k..], At(k + |text|)))
  }

  /** A write succeeds exactly when the insertion point is inside the string and the result
      fits; then `text` sits at the insertion point, what was before and after it is intact,
      and a caret ends up right after `text`. */
  lemma PutPlacesText(str: string, caret: Caret, text: string, maxSize: nat)
    ensures var p := InsertionPoint(str, caret);
      var r := Put(str, caret, text, maxSize);
      && (r.Success? <==> p <= |str| && |str| + |text| <= maxSize)
      && (r.Failure? ==> (r.error == OutOfRange <==> p > |str|))
      && (r.Success? ==>
            && r.value.0[..p] == str[..p]
            && r.value.0[p..p + |text|] == text
            && r.value.0[p + |text|..] == str[p..]
            && r.value.1 == (if caret.Npos? then Npos else At(p + |text|)))
  {
    var p := InsertionPoint(str, caret);
    var r := Put(str, caret, text, maxSize);
    if r.Success? {
      var s := r.value.0;
      if caret.Npos? {
        assert s == str + text;
        assert s[..p] == str;
        assert s[p..p + |text|] == text;
        assert s[p + |text|..] == [];
      } else {
        assert s == str[..p] + text + str[p..];
        assert s[..p] == str[..p];
        assert s[p..p + |text|] == text;
        assert s[p + |text|..] == str[p..];
      }
    }
  }

  /** Writing `a` and then `b` is writing `a + b`, errors included: the caret carries the
      second write to where the first ended. */
  lemma PutThenPut(str: string, caret: Caret, a: string, b: string, maxSize: nat)
    ensures Put(str, caret, a + b, maxSize) ==
      match Put(str, caret, a, maxSize)
      case Success((s1, c1)) => Put(s1, c1, b, maxSize)
      case Failure(e) => Failure(e)
  {
    match caret
    case Npos =>
      assert str + (a + b) == str + a + b;
    case At(k) =>
      if k <= |str| && |str| + |a| <= maxSize {
        var s1 := str[..k] + a + str[k..];
        assert s1[..k + |a|] == str[..k] + a;
        assert s1[k + |a|..] == str[k..];
        assert str[..k] + (a + b) + str[k..] == (str[..k] + a) + b + str[k..];
      }
  }

  /** How many characters `xsgetn(s, n)` copies out of a string of `size` characters. The
      count `n` is compared after a cast to an unsigned 64-bit integer, so a negative count
      asks for everything. */
  function ReadCount(n: int, size: nat): (k: nat)
    requires -0x8000_0000_0000_0000 <= n < 0x8000_0000_0000_0000
    requires size < 0x8000_0000_0000_0000
    ensures k <= size
    ensures 0 <= n ==> k == if n <= size then n else size
    ensures n < 0 ==> k == size
  {
    var unsigned := if n < 0 then n + 0x1_0000_0000_0000_0000 else n;
    if unsigned <= size then n else size
  }

  /** `xsgetn` as written: the characters are copied out but the string keeps them. */
  function ReadKeeping(str: string, n: int): (r: (string, string))
    requires -0x8000_0000_0000_0000 <= n < 0x8000_0000_0000_0000
    requires |str| < 0x8000_0000_0000_0000
    ensures r.0 <= str && r.1 == str
  {
    var k := ReadCount(n, |str|);
    (str[..k], str)
  }

  /** `xsgetn` as its comment describes it: the characters copied out are discarded. */
  function ReadDiscarding(str: string, n: int): (r: (string, string))
    requires -0x8000_0000_0000_0000 <= n < 0x8000_0000_0000_0000
    requires |str| < 0x8000_0000_0000_0000
    ensures r.0 + r.1 == str
  {
    var k := ReadCount(n, |str|);
    (str[..k], str[k..])
  }

  /** As written, two reads of one character from "ab" both give "a": nothing is consumed. */
  lemma ReadKeepingRepeats()
    ensures var (first, rest) := ReadKeeping("ab", 1);
      var (second, _) := ReadKeeping(rest, 1);
      first == "a" && second == "a"
  {
  }

  /** Discarding reads hand out each character once, in order: what is copied and what is
      left make up the string, and reading `m` then `n` characters equals reading `m + n`. */
  lemma ReadDiscardingSplits(str: string, m: nat, n: nat)
    requires m + n < 0x8000_0000_0000_0000 && |str| < 0x8000_0000_0000_0000
    ensures ReadDiscarding(str, m).0 + ReadDiscarding(str, m).1 == str
    ensures var (first, rest) := ReadDiscarding(str, m);
      var (second, left) := ReadDiscarding(rest, n);
      first + second == ReadDiscarding(str, m + n).0 && left == ReadDiscarding(str, m + n).1
  {
    var k := ReadCount(m, |str|);
    var rest := str[k..];
    var j := ReadCount(n, |rest|);
    assert str[..k] + str[k..] == str;
    assert str[..k] + rest[..j] == str[..k + j];
    assert rest[j..] == str[k + j..];
  }

  // ---------------------------------------------------------------------------

  /** The buffer: `m_str`, `m_caret`, `m_which`, and the get area of the base class, which
      is either unset (null pointers) or spans the whole string with `getArea.value`
      characters consumed. */
  class InsertableStreambuf {
    var str: string
    var caret: Caret
    const inMode: bool
    const outMode: bool
    /** `m_str.max_size()`. */
    const maxSize: nat
    var getArea: Option<nat>

    ghost predicate Valid()
      reads this
    {
      && |str| <= maxSize < 0x8000_0000_0000_0000
      && (getArea.Some? ==> getArea.value <= |str|)
    }

    /** `gptr() - eback()`: zero when the get area is unset. */
    function Consumed(): nat
      reads this
    {
      if getArea.Some? then getArea.value else 0
    }

    /** The characters not yet read. */
    function Pending(): string
      reads this
      requires Valid()
    {
      str[Consumed()..]
    }

    /** `basic_insertable_streambuf(str, caret, which)`. */
    constructor (s: string, c: Caret, inMode: bool, outMode: bool, maxSize: nat)
      requires |s| <= maxSize < 0x8000_0000_0000_0000
      ensures Valid()
      ensures str == s && caret == c && getArea == None
      ensures this.inMode == inMode && this.outMode == outMode && this.maxSize == maxSize
    {
      str := s;
      caret := c;
      this.inMode := inMode;
      this.outMode := outMode;
      this.maxSize := maxSize;
      getArea := None;
    }

    /** `sync()`: erases the characters already read from the front and unsets the get
        area; the unread characters and the caret are untouched. Returns 0. */
    method Sync() returns (r: int)
      requires Valid()
      modifies this
      ensures Valid()
      ensures str == old(Pending()) && getArea == None && caret == old(caret)
      ensures r == 0
    {
      if getArea.Some? {
        str := str[getArea.value..];
        getArea := None;
      }
      r := 0;
    }

    /** `showmanyc()`: the number of unread characters in in-mode, 0 otherwise. */
    method ShowManyC() returns (n: int)
      requires Valid()
      ensures n == if inMode then |Pending()| else 0
    {
      if inMode {
        var total := |str|;
        var got := Consumed();
        n := total - got;
      } else {
        n := 0;
      }
    }

    /** `xsgetn(s, n)` as written: tidies the get area, then copies up to `n` characters
        out; the string keeps them. Out of in-mode it copies nothing. */
    method XsGetN(n: int) returns (count: int, copied: string)
      requires Valid() && -0x8000_0000_0000_0000 <= n < 0x8000_0000_0000_0000
      modifies this
      ensures Valid() && caret == old(caret)
      ensures inMode ==> getArea == None && (copied, str) == ReadKeeping(old(Pending()), n)
      ensures !inMode ==> str == old(str) && getArea == old(getArea) && copied == []
      ensures count == |copied|
    {
      if inMode {
        var _ := Sync();
        var got := ReadCount(n, |str|);
        copied := str[..got];
        count := got;
      } else {
        copied := [];
        count := 0;
      }
    }

    /** `xsgetn` with the discarding its comment describes: the copied characters also
        leave the string. */
    method XsGetNDiscarding(n: int) returns (count: int, copied: string)
      requires Valid() && -0x8000_0000_0000_0000 <= n < 0x8000_0000_0000_0000
      modifies this
      ensures Valid() && caret == old(caret)
      ensures inMode ==> getArea == None && (copied, str) == ReadDiscarding(old(Pending()), n)
      ensures !inMode ==> str == old(str) && getArea == old(getArea) && copied == []
      ensures count == |copied|
    {
      if inMode {
        var _ := Sync();
        var got := ReadCount(n, |str|);
        copied := str[..got];
        str := str[got..];
        count := got;
      } else {
        copied := [];
        count := 0;
      }
    }

    /** `underflow()`: in in-mode, tidies the get area and, unless the string is then
        empty, makes the whole string the get area and returns its first character.
        Otherwise returns end-of-file. */
    method Underflow() returns (r: IntType)
      requires Valid()
      modifies this
      ensures Valid() && caret == old(caret)
      ensures inMode ==> str == old(Pending())
      ensures inMode && str != [] ==> getArea == Some(0) && r == Char(str[0])
      ensures inMode && str == [] ==> getArea == None && r == Eof
      ensures !inMode ==> str == old(str) && getArea == old(getArea) && r == Eof
    {
      if inMode {
        var _ := Sync();
        if |str| == 0 {
          return Eof;
        }
        getArea := Some(0);
        r := Char(str[0]);
      } else {
        r := Eof;
      }
    }

    /** The base class reading one character from a non-empty get area (`sbumpc`). */
    method TakeFromGetArea() returns (ch: char)
      requires Valid() && getArea.Some? && getArea.value < |str|
      modifies this
      ensures Valid() && str == old(str) && caret == old(caret)
      ensures [ch] + Pending() == old(Pending())
    {
      ch := str[getArea.value];
      getArea := Some(getArea.value + 1);
    }

    /** `pbackfail(c)`: in out-mode, puts a character back at the front of the string
        (leaving the caret where it was); end-of-file, or any call out of out-mode, gives
        end-of-file and changes nothing. */
    method PBackFail(c: IntType) returns (r: Result<IntType, Error>)
      requires Valid()
      modifies this
      ensures caret == old(caret)
      ensures outMode && c.Char? && |old(Pending())| < maxSize ==>
        Valid() && r == Success(c) && str == [c.c] + old(Pending()) && getArea == None
      ensures outMode && c.Char? && |old(Pending())| >= maxSize ==>
        Valid() && r == Failure(LengthError) && str == old(Pending()) && getArea == None
      ensures !outMode || c.Eof? ==>
        Valid() && r == Success(Eof) && str == old(str) && getArea == old(getArea)
    {
      if outMode {
        if c.Eof? {
          return Success(Eof);
        }
        var _ := Sync();
        if |str| + 1 > maxSize {
          return Failure(LengthError);
        }
        str := [c.c] + str;
        r := Success(c);
      } else {
        r := Success(Eof);
      }
    }

    /** `xsputn(s, n)`: in out-mode, tidies the get area and writes the first
        `min(n, max_size())` characters of `s` at the insertion point, moving a caret past
        them; returns the count written. Out of out-mode it writes nothing and returns 0. */
    method XsPutN(s: string) returns (r: Result<int, Error>)
      requires Valid()
      modifies this
      ensures Valid()
      ensures outMode ==> (getArea == None &&
        var text := if |s| <= maxSize then s else s[..maxSize];
        match Put(old(Pending()), old(caret), text, maxSize)
        case Success((s1, c1)) => r == Success(|text|) && str == s1 && caret == c1
        case Failure(e) => r == Failure(e) && str == old(Pending()) && caret == old(caret))
      ensures !outMode ==>
        (r == Success(0) && str == old(str) && caret == old(caret) && getArea == old(getArea))
    {
      if outMode {
        var _ := Sync();
        var put := if |s| <= maxSize then |s| else maxSize;
        var text := s[..put];
        assert text == if |s| <= maxSize then s else s[..maxSize];
        match caret {
          case Npos =>
            if |str| + put > maxSize {
              return Failure(LengthError);
            }
            str := str + text;
          case At(k) =>
            if k > |str| {
              return Failure(OutOfRange);
            }
            if |str| + put > maxSize {
              return Failure(LengthError);
            }
            str := str[..k] + text + str[k..];
            caret := At(k + put);
        }
        r := Success(put);
      } else {
        r := Success(0);
      }
    }

    /** `overflow(c)`: in out-mode, end-of-file changes nothing and gives `not_eof`; a
        character is tidied in and written at the insertion point exactly as a one-character
        `xsputn`, and is returned. Out of out-mode: end-of-file, nothing changes. */
    method Overflow(c: IntType) returns (r: Result<IntType, Error>)
      requires Valid()
      modifies this
      ensures Valid()
      ensures outMode && c.Char? ==> (getArea == None &&
        match Put(old(Pending()), old(caret), [c.c], maxSize)
        case Success((s1, c1)) => r == Success(c) && str == s1 && caret == c1
        case Failure(e) => r == Failure(e) && str == old(Pending()) && caret == old(caret))
      ensures outMode && c.Eof? ==> (r == Success(NotEofOfEof) && r.value != Eof
        && str == old(str) && caret == old(caret) && getArea == old(getArea))
      ensures !outMode ==>
        (r == Success(Eof) && str == old(str) && caret == old(caret) && getArea == old(getArea))
    {
      if outMode {
        if c.Eof? {
          return Success(NotEofOfEof);
        }
        var _ := Sync();
        match caret {
          case Npos =>
            if |str| + 1 > maxSize {
              return Failure(LengthError);
            }
            str := str + [c.c];
          case At(k) =>
            if k > |str| {
              return Failure(OutOfRange);
            }
            if |str| + 1 > maxSize {
              return Failure(LengthError);
            }
            str := str[..k] + [c.c] + str[k..];
            caret := At(k + 1);
        }
        r := Success(c);
      } else {
        r := Success(Eof);
      }
    }

    /** `get_string()`: tidies the get area and returns the string, which is then exactly
        the unread characters. */
    method GetString() returns (s: string)
      requires Valid()
      modifies this
      ensures Valid() && s == str && s == old(Pending())
      ensures getArea == None && caret == old(caret)
    {
      var _ := Sync();
      s := str;
    }

    /** `set_string(str, caret)`: tidies the get area, then replaces string and caret. */
    method SetString(s: string, c: Caret)
      requires Valid() && |s| <= maxSize
      modifies this
      ensures Valid() && str == s && caret == c && getArea == None
    {
      var _ := Sync();
      str := s;
      caret := c;
    }

    /** `set_caret(caret)`: any value is accepted; a caret past the end makes the next
        write fail. */
    method SetCaret(c: Caret)
      requires Valid()
      modifies this
      ensures Valid() && caret == c && str == old(str) && getArea == old(getArea)
    {
      caret := c;
    }

    /** `extract_string()`: returns the unread characters and leaves an empty buffer
        with caret `npos`. */
    method ExtractString() returns (s: string)
      requires Valid()
      modifies this
      ensures Valid() && s == old(Pending())
      ensures str == [] && caret == Npos && getArea == None
    {
      var _ := Sync();
      s := str;
      str := [];
      caret := Npos;
    }
  }

  /** Two writes in a row through `xsputn` leave the buffer as one write of both texts. */
  method WriteTwice(b: InsertableStreambuf, x: string, y: string)
      returns (r1: Result<int, Error>, r2: Result<int, Error>)
    requires b.Valid() && b.outMode && |x| + |y| <= b.maxSize
    modifies b
    ensures b.Valid()
    ensures r1.Success? && r2.Success? ==>
      Put(old(b.Pending()), old(b.caret), x + y, b.maxSize) == Success((b.str, b.caret))
  {
    r1 := b.XsPutN(x);
    r2 := b.XsPutN(y);
    if r1.Success? && r2.Success? {
      PutThenPut(old(b.Pending()), old(b.caret), x, y, b.maxSize);
    }
  }
}
