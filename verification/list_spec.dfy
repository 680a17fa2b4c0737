/**
 * The abstract view shared by both list variants: a list is the sequence of
 * the elements met when walking from the head along the successor links.
 * Lookups by equality (the value variant) or by pointer identity (the owning
 * variant) both find the FIRST node, in that order, whose element matches.
 */
module ListSpec {

  /** A result that may be absent: the owning variant's `nullptr` return. */
  datatype Option<T> = None | Some(value: T)

  /** The C++ `uint8_t` used for counts and indices. */
  type Byte = x: int | 0 <= x < 0x100

  /** No element occurs twice. */
  ghost predicate Distinct<T>(s: seq<T>)
  {
    forall i, j :: 0 <= i < j < |s| ==> s[i] != s[j]
  }

  /**
   * Position of the first occurrence of `x` in `s`, or `|s|` when there is
   * none: the linear search every lookup of both variants performs.
   */
  function Find<T(==)>(s: seq<T>, x: T): (k: nat)
    ensures k <= |s|
    ensures k < |s| ==> s[k] == x
    ensures forall j :: 0 <= j < k ==> s[j] != x
  {
    if s == [] then 0
    else if s[0] == x then 0
    else 1 + Find(s[1..], x)
  }

  /** `Find` answers `|s|` exactly when `x` does not occur. */
  lemma FindAbsent<T>(s: seq<T>, x: T)
    ensures Find(s, x) == |s| <==> x !in s
  {
    if x in s {
      var i :| 0 <= i < |s| && s[i] == x;
      assert Find(s, x) <= i;
    }
  }

  /** In a list without repetitions, searching for the element at `i` finds `i`. */
  lemma FindDistinct<T>(s: seq<T>, i: nat)
    requires Distinct(s) && i < |s|
    ensures Find(s, s[i]) == i
  {
    var k := Find(s, s[i]);
    assert k <= i;
  }

  /** Splicing in an element not yet present keeps a sequence free of repetitions. */
  lemma DistinctInsert<T>(s: seq<T>, k: nat, x: T)
    requires k <= |s| && Distinct(s) && x !in s
    ensures Distinct(s[..k] + [x] + s[k..])
  {
  }

  /**
   * The sequence left after unlinking the first node whose element is `x`;
   * unchanged when there is none.
   */
  function RemoveFirst<T(==)>(s: seq<T>, x: T): (r: seq<T>)
    ensures x !in s ==> r == s
    ensures x in s ==> |r| == |s| - 1
  {
    FindAbsent(s, x);
    var k := Find(s, x);
    if k == |s| then s else s[..k] + s[k + 1..]
  }

  /**
   * Removal keeps the order of what remains: the elements before the first
   * occurrence stay where they were and those after it move up by one.
   */
  lemma RemoveFirstShifts<T>(s: seq<T>, x: T, i: nat)
    requires i < |RemoveFirst(s, x)|
    ensures RemoveFirst(s, x)[i] == s[if i < Find(s, x) then i else i + 1]
  {
    FindAbsent(s, x);
  }

  /** Removal takes away exactly one occurrence of `x`, if there is one, and nothing else. */
  lemma RemoveFirstMultiset<T>(s: seq<T>, x: T)
    ensures multiset(RemoveFirst(s, x)) == multiset(s) - multiset{x}
  {
    FindAbsent(s, x);
    var k := Find(s, x);
    if k < |s| {
      assert s == s[..k] + [s[k]] + s[k + 1..];
      assert RemoveFirst(s, x) == s[..k] + s[k + 1..];
      assert multiset(s) == multiset(s[..k]) + multiset{x} + multiset(s[k + 1..]);
    } else {
      assert multiset(s)[x] == 0;
    }
  }

  /** When `x` occurs at most once, it is gone after one removal. */
  lemma RemoveFirstGone<T>(s: seq<T>, x: T)
    requires multiset(s)[x] <= 1
    ensures x !in RemoveFirst(s, x)
  {
    RemoveFirstMultiset(s, x);
    assert multiset(RemoveFirst(s, x))[x] == 0;
  }

  /**
   * Removing an element that occurs at most once a second time changes
   * nothing: the second removal finds no match.
   */
  lemma RemoveFirstIdempotent<T>(s: seq<T>, x: T)
    requires multiset(s)[x] <= 1
    ensures RemoveFirst(RemoveFirst(s, x), x) == RemoveFirst(s, x)
  {
    RemoveFirstGone(s, x);
  }

  /**
   * Removal undoes an insertion at k of an element that does not occur
   * before k (appending is the case k == |s|): the first occurrence is the
   * inserted one.
   */
  lemma RemoveAfterInsert<T>(s: seq<T>, k: nat, x: T)
    requires k <= |s| && x !in s[..k]
    ensures RemoveFirst(s[..k] + [x] + s[k..], x) == s
  {
    var t := s[..k] + [x] + s[k..];
    assert t[k] == x;
    assert Find(t, x) == k;
    assert t[..k] + t[k + 1..] == s;
  }

  /**
   * Removal also undoes the insertion of a second copy of `x` just after its
   * first occurrence, at k: the original copy goes and the new one takes
   * its place.
   */
  lemma RemoveAfterDuplicate<T>(s: seq<T>, k: nat, x: T)
    requires k < |s| && s[k] == x && x !in s[..k]
    ensures RemoveFirst(s[..k + 1] + [x] + s[k + 1..], x) == s
  {
    assert s[..k + 1] + [x] + s[k + 1..] == s[..k] + [x] + s[k..] by {
      assert s[..k + 1] == s[..k] + [x];
      assert s[k..] == [x] + s[k + 1..];
    }
    RemoveAfterInsert(s, k, x);
  }

  /** The element after the first occurrence of `x`; `None` if `x` is absent or last. */
  function Successor<T(==)>(s: seq<T>, x: T): Option<T>
  {
    var k := Find(s, x);
    if k + 1 < |s| then Some(s[k + 1]) else None
  }

  /** There is a successor exactly when `x` occurs somewhere before the last position. */
  lemma SuccessorDefined<T>(s: seq<T>, x: T)
    ensures Successor(s, x).Some? <==> |s| > 0 && x in s[..|s| - 1]
  {
    if |s| > 0 {
      FindAbsent(s[..|s| - 1], x);
      var k := Find(s, x);
      if x in s[..|s| - 1] {
        assert k <= Find(s[..|s| - 1], x);
      } else {
        assert k >= |s| - 1;
      }
    }
  }

  /** The element before the first occurrence of `x`; `None` if `x` is absent or first. */
  function Predecessor<T(==)>(s: seq<T>, x: T): (r: Option<T>)
    ensures r.Some? <==> x in s && s[0] != x
  {
    FindAbsent(s, x);
    var k := Find(s, x);
    if 0 < k < |s| then Some(s[k - 1]) else None
  }

  /**
   * In a list without repetitions, stepping forward and stepping back are
   * inverse: `y` follows `x` exactly when `x` precedes `y`.
   */
  lemma SuccessorPredecessor<T>(s: seq<T>, x: T, y: T)
    requires Distinct(s)
    ensures Successor(s, x) == Some(y) <==> Predecessor(s, y) == Some(x)
  {
    FindAbsent(s, x);
    FindAbsent(s, y);
    var k := Find(s, x);
    if Successor(s, x) == Some(y) {
      FindDistinct(s, k + 1);
    }
    if Predecessor(s, y) == Some(x) {
      var m := Find(s, y);
      FindDistinct(s, m - 1);
    }
  }
}
