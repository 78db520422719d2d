/** `rocket::variant` (asteria/rocket/variant.hpp): a tagged union holding exactly one
    live alternative out of `size`, identified by `index`.

    The alternative types are folded into one type parameter `T`; `tag(x)` names the
    alternative a value belongs to (the `index_of` of its C++ type). Exceptions thrown
    by constructors and by in-place assignments and swaps are oracle inputs
    (`ctorThrows`, `assignThrew`, `swapThrew`) and come back as a `threw` flag. Move
    constructors never throw: the class requires nothrow move construction of every
    alternative (variant.hpp:23-24), so moving into and back out of a backup always
    succeeds. */
module Variant {
  import opened Wrappers

  /** The `invalid_argument` thrown by `as<I>()`: the index asked for and the active one. */
  datatype Error = IndexMismatch(expected: nat, got: nat)

  /** Which of the source's assignment strategies was taken. */
  datatype AssignPath =
    | InPlace        // same alternative: copy/move-assign the stored object
    | Rebuild        // destroy the old alternative, then construct the new one
    | BackupRestore  // move the old alternative to a backup, construct, restore it on failure

  class Variant<T> {
    const size: nat
    const tag: T -> nat
    var index: nat
    var stor: T

    /** Exactly one alternative is live, and the index names it. */
    ghost predicate Valid()
      reads this
    {
      0 < size && index < size && tag(stor) == index
    }

    /** `variant()`: value-initializes alternative 0, here the value `first`. */
    constructor Default(size: nat, tag: T -> nat, first: T)
      requires 0 < size && tag(first) == 0
      ensures Valid() && this.size == size && this.tag == tag
      ensures index == 0 && stor == first
    {
      this.size := size;
      this.tag := tag;
      index := 0;
      stor := first;
    }

    /** `variant(paramT&& param)`: holds the alternative of the argument's type. */
    constructor Converting(size: nat, tag: T -> nat, param: T)
      requires tag(param) < size
      ensures Valid() && this.size == size && this.tag == tag
      ensures index == tag(param) && stor == param
    {
      this.size := size;
      this.tag := tag;
      index := tag(param);
      stor := param;
    }

    /** `variant(const variant&)` and `variant(variant&&)`: the same active
        alternative and value as `other`. */
    constructor CopyOf(other: Variant<T>)
      requires other.Valid()
      ensures Valid() && size == other.size && tag == other.tag
      ensures index == other.index && stor == other.stor
    {
      size := other.size;
      tag := other.tag;
      index := other.index;
      stor := other.stor;
    }

    /** `index()`: always below `alternative_size`. */
    function Index(): (r: nat)
      reads this
      requires Valid()
      ensures r < size && r == tag(stor)
    {
      index
    }

    /** `get<I>()`: null exactly when the active index differs from `i`. */
    function Get(i: nat): (r: Option<T>)
      reads this
      requires Valid()
      ensures r.None? <==> i != index
      ensures r.Some? ==> r.value == stor && tag(r.value) == i
    {
      if index != i then None else Some(stor)
    }

    /** `as<I>()`: the active value when the index matches; otherwise the
        index-mismatch error naming `i` and the active index. */
    function As(i: nat): (r: Result<T, Error>)
      reads this
      requires Valid()
      ensures r.Success? <==> i == index
      ensures r.Success? ==> r.value == stor
      ensures r.Failure? ==> r.error == IndexMismatch(i, index)
    {
      match Get(i)
      case None => Failure(IndexMismatch(i, index))
      case Some(x) => Success(x)
    }

    /** `operator=(const paramT&)`. The same alternative is copy-assigned in place; that
        assignment throws when `assignThrew` is given, leaving the alternative live with
        the value the assignment left behind. A different alternative is rebuilt
        directly when its copy constructor cannot throw, and otherwise through a backup
        that is restored if the copy constructor throws. */
    method AssignCopy(param: T, nothrowCopy: bool, ctorThrows: bool, assignThrew: Option<T>)
      returns (path: AssignPath, threw: bool)
      requires Valid() && tag(param) < size
      requires nothrowCopy ==> !ctorThrows
      requires assignThrew.Some? ==> tag(assignThrew.value) == tag(param)
      modifies this
      ensures Valid()
      ensures path == InPlace <==> old(index) == tag(param)
      ensures path == Rebuild <==> old(index) != tag(param) && nothrowCopy
      ensures threw <==> (path == BackupRestore && ctorThrows) || (path == InPlace && assignThrew.Some?)
      ensures threw && path == BackupRestore ==> index == old(index) && stor == old(stor)
      ensures threw && path == InPlace ==> index == old(index) && stor == assignThrew.value
      ensures !threw ==> index == tag(param) && stor == param && As(tag(param)) == Success(param)
    {
      var indexOld := index;
      var indexNew := tag(param);
      threw := false;
      if indexOld == indexNew {
        path := InPlace;
        if assignThrew.Some? {
          // The alternative's own assignment threw; it stays live as it left itself.
          stor := assignThrew.value;
          threw := true;
        } else {
          stor := param;
        }
      } else if nothrowCopy {
        path := Rebuild;
        stor := param;
        index := indexNew;
      } else {
        path := BackupRestore;
        var backup := stor;
        if ctorThrows {
          // The backup is moved back and the exception rethrown.
          stor := backup;
          threw := true;
        } else {
          stor := param;
          index := indexNew;
        }
      }
    }

    /** `operator=(paramT&&)`: an rvalue needs no backup, since move construction never
        throws. The same alternative is move-assigned in place, and that assignment
        throws when `assignThrew` is given, leaving the value it left behind. */
    method AssignMove(param: T, assignThrew: Option<T>) returns (path: AssignPath, threw: bool)
      requires Valid() && tag(param) < size
      requires assignThrew.Some? ==> tag(assignThrew.value) == tag(param)
      modifies this
      ensures Valid()
      ensures path == (if old(index) == tag(param) then InPlace else Rebuild)
      ensures threw <==> path == InPlace && assignThrew.Some?
      ensures threw ==> index == old(index) && stor == assignThrew.value
      ensures !threw ==> index == tag(param) && stor == param
    {
      threw := false;
      if index == tag(param) {
        path := InPlace;
        if assignThrew.Some? {
          stor := assignThrew.value;
          threw := true;
        } else {
          stor := param;
        }
      } else {
        path := Rebuild;
        stor := param;
        index := tag(param);
      }
    }

    /** `operator=(const variant&)`: as `AssignCopy`, with the rebuild path taken only
        when every alternative is nothrow copy constructible, and `dispatch_copy_assign`
        on the same index throwing when `assignThrew` is given. */
    method AssignFrom(other: Variant<T>, allNothrowCopy: bool, ctorThrows: bool, assignThrew: Option<T>)
      returns (path: AssignPath, threw: bool)
      requires Valid() && other.Valid() && other.size == size && other.tag == tag
      requires allNothrowCopy ==> !ctorThrows
      requires assignThrew.Some? ==> tag(assignThrew.value) == other.index
      modifies this
      ensures Valid()
      ensures path == InPlace <==> old(index) == old(other.index)
      ensures path == Rebuild <==> old(index) != old(other.index) && allNothrowCopy
      ensures threw <==> (path == BackupRestore && ctorThrows) || (path == InPlace && assignThrew.Some?)
      ensures threw && path == BackupRestore ==> index == old(index) && stor == old(stor)
      ensures threw && path == InPlace ==> index == old(index) && stor == assignThrew.value
      ensures !threw ==> index == old(other.index) && stor == old(other.stor)
    {
      var indexOld, indexNew, value := index, other.index, other.stor;
      threw := false;
      if indexOld == indexNew {
        path := InPlace;
        if assignThrew.Some? {
          stor := assignThrew.value;
          threw := true;
        } else {
          stor := value;
        }
      } else if allNothrowCopy {
        path := Rebuild;
        stor := value;
        index := indexNew;
      } else {
        path := BackupRestore;
        var backup := stor;
        if ctorThrows {
          stor := backup;
          threw := true;
        } else {
          stor := value;
          index := indexNew;
        }
      }
    }

    /** `operator=(variant&&)`: move construction never throws, so no backup is made;
        `dispatch_move_assign` on the same index throws when `assignThrew` is given. */
    method MoveFrom(other: Variant<T>, assignThrew: Option<T>) returns (path: AssignPath, threw: bool)
      requires Valid() && other.Valid() && other.size == size && other.tag == tag
      requires assignThrew.Some? ==> tag(assignThrew.value) == other.index
      modifies this
      ensures Valid()
      ensures path == (if old(index) == old(other.index) then InPlace else Rebuild)
      ensures threw <==> path == InPlace && assignThrew.Some?
      ensures threw ==> index == old(index) && stor == assignThrew.value
      ensures !threw ==> index == old(other.index) && stor == old(other.stor)
    {
      var indexNew, value := other.index, other.stor;
      threw := false;
      if index == indexNew {
        path := InPlace;
        if assignThrew.Some? {
          stor := assignThrew.value;
          threw := true;
          return;
        }
      } else {
        path := Rebuild;
      }
      stor := value;
      index := indexNew;
    }

    /** `emplace<I>(params...)`: always destroys the old alternative and constructs
        alternative `i` (the value `param`); a constructor that may throw goes through
        the backup, which is restored when the constructor throws. */
    method Emplace(i: nat, param: T, nothrowCtor: bool, ctorThrows: bool)
      returns (path: AssignPath, threw: bool)
      requires Valid() && i < size && tag(param) == i
      requires nothrowCtor ==> !ctorThrows
      modifies this
      ensures Valid()
      ensures path == (if nothrowCtor then Rebuild else BackupRestore)
      ensures threw <==> !nothrowCtor && ctorThrows
      ensures threw ==> index == old(index) && stor == old(stor)
      ensures !threw ==> index == i && Get(i) == Some(param)
    {
      threw := false;
      if nothrowCtor {
        path := Rebuild;
        stor := param;
        index := i;
      } else {
        path := BackupRestore;
        var backup := stor;
        if ctorThrows {
          stor := backup;
          threw := true;
        } else {
          stor := param;
          index := i;
        }
      }
    }

    /** `swap(variant&)`: exchanges the indices and values, in place when both hold
        the same alternative and through a backup buffer otherwise. The in-place swap
        of the alternatives throws when `swapThrew` is given, leaving both live with
        the values it left behind; the exchange through the backup only moves, and
        cannot throw. */
    method Swap(other: Variant<T>, swapThrew: Option<(T, T)>)
      returns (path: AssignPath, threw: bool)
      requires Valid() && other.Valid() && other.size == size && other.tag == tag
      requires swapThrew.Some? ==> tag(swapThrew.value.0) == index && tag(swapThrew.value.1) == other.index
      requires swapThrew.Some? && other == this ==> swapThrew.value.0 == swapThrew.value.1
      modifies this, other
      ensures Valid() && other.Valid()
      ensures path == (if old(index) == old(other.index) then InPlace else BackupRestore)
      ensures threw <==> path == InPlace && swapThrew.Some?
      ensures threw ==> index == old(index) && other.index == old(other.index)
      ensures threw ==> stor == swapThrew.value.0 && other.stor == swapThrew.value.1
      ensures !threw ==> index == old(other.index) && stor == old(other.stor)
      ensures !threw ==> other.index == old(index) && other.stor == old(stor)
    {
      var indexOld, indexNew := index, other.index;
      threw := false;
      if indexOld == indexNew {
        path := InPlace;
        if swapThrew.Some? {
          // The alternatives' own swap threw; both stay live as it left them.
          stor := swapThrew.value.0;
          other.stor := swapThrew.value.1;
          threw := true;
        } else {
          stor, other.stor := other.stor, stor;
        }
      } else {
        path := BackupRestore;
        var backup := stor;
        stor := other.stor;
        index := indexNew;
        other.stor := backup;
        other.index := indexOld;
      }
    }
  }
}
