/**
 * Generic sequence operations standing for the JavaScript array built-ins the
 * dashboard relies on: `find`, `filter(Boolean)` over a mapped array, `flat()`.
 */
module Seqs {
  import opened Wrappers

  /** Index of the first element satisfying `p` (what `Array.prototype.find` locates). */
  function FindFirst<T>(s: seq<T>, p: T -> bool): (r: Option<nat>)
    ensures r.Some? ==> r.value < |s| && p(s[r.value])
    ensures r.Some? ==> forall j :: 0 <= j < r.value ==> !p(s[j])
    ensures r.None? ==> forall j :: 0 <= j < |s| ==> !p(s[j])
  {
    if |s| == 0 then None
    else if p(s[0]) then Some(0)
    else
      match FindFirst(s[1..], p)
      case None => None
      case Some(k) => Some(k + 1)
  }

  /** Number of elements satisfying `p`. */
  function Count<T>(s: seq<T>, p: T -> bool): (n: nat)
    ensures n <= |s|
  {
    if |s| == 0 then 0 else (if p(s[0]) then 1 else 0) + Count(s[1..], p)
  }

  /** Number of absent entries. */
  function CountNone<T>(s: seq<Option<T>>): (n: nat)
    ensures n <= |s|
  {
    if |s| == 0 then 0 else (if s[0].None? then 1 else 0) + CountNone(s[1..])
  }

  /**
   * `filter(Boolean)` over an array of objects-or-null: the absent entries are
   * dropped (not replaced), the present ones kept in order.
   */
  function Compact<T>(s: seq<Option<T>>): (r: seq<T>)
    ensures |r| == |s| - CountNone(s)
  {
    if |s| == 0 then []
    else
      match s[0]
      case None => Compact(s[1..])
      case Some(x) => [x] + Compact(s[1..])
  }

  /** Every kept element was present in the input, and every present one is kept. */
  lemma {:induction false} CompactMembers<T>(s: seq<Option<T>>)
    ensures forall i :: 0 <= i < |Compact(s)| ==> Some(Compact(s)[i]) in s
    ensures forall i :: 0 <= i < |s| && s[i].Some? ==> s[i].value in Compact(s)
  {
    if |s| > 0 {
      CompactMembers(s[1..]);
      var r := Compact(s);
      forall i | 0 <= i < |r| ensures Some(r[i]) in s {
        if s[0].Some? && i == 0 {
        } else {
          var j := if s[0].Some? then i - 1 else i;
          assert r[i] == Compact(s[1..])[j];
          assert Some(r[i]) in s[1..];
        }
      }
      forall i | 0 <= i < |s| && s[i].Some? ensures s[i].value in r {
        if i > 0 {
          assert s[i] == s[1..][i - 1];
        }
      }
    }
  }

  /** Compacting distributes over concatenation, so relative order is kept. */
  lemma {:induction false} CompactAppend<T>(a: seq<Option<T>>, b: seq<Option<T>>)
    ensures Compact(a + b) == Compact(a) + Compact(b)
  {
    if |a| == 0 {
      assert a + b == b;
    } else {
      assert (a + b)[1..] == a[1..] + b;
      CompactAppend(a[1..], b);
    }
  }

  /** With nothing absent, compacting only unwraps, element by element. */
  lemma {:induction false} CompactAllPresent<T>(s: seq<Option<T>>)
    requires forall i :: 0 <= i < |s| ==> s[i].Some?
    ensures |Compact(s)| == |s|
    ensures forall i :: 0 <= i < |s| ==> Compact(s)[i] == s[i].value
  {
    if |s| > 0 {
      CompactAllPresent(s[1..]);
    }
  }

  /** A prefix one longer is the shorter prefix and the next element. */
  lemma PrefixSnoc<T>(s: seq<T>, k: nat)
    requires k < |s|
    ensures s[..k + 1] == s[..k] + [s[k]]
  {
  }

  /** Total number of elements of the inner sequences. */
  function TotalLength<T>(ss: seq<seq<T>>): nat {
    if |ss| == 0 then 0 else |ss[0]| + TotalLength(ss[1..])
  }

  /** `Array.prototype.flat()` one level deep. */
  function Flatten<T>(ss: seq<seq<T>>): (r: seq<T>)
    ensures |r| == TotalLength(ss)
  {
    if |ss| == 0 then [] else ss[0] + Flatten(ss[1..])
  }

  /** Flattening distributes over concatenation. */
  lemma {:induction false} FlattenAppend<T>(a: seq<seq<T>>, b: seq<seq<T>>)
    ensures Flatten(a + b) == Flatten(a) + Flatten(b)
  {
    if |a| == 0 {
      assert a + b == b;
    } else {
      assert (a + b)[1..] == a[1..] + b;
      FlattenAppend(a[1..], b);
    }
  }

  lemma {:induction false} TotalLengthAppend<T>(a: seq<seq<T>>, b: seq<seq<T>>)
    ensures TotalLength(a + b) == TotalLength(a) + TotalLength(b)
  {
    if |a| == 0 {
      assert a + b == b;
    } else {
      assert (a + b)[1..] == a[1..] + b;
      TotalLengthAppend(a[1..], b);
    }
  }
}
