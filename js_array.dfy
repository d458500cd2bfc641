/** The JavaScript array operations the ledger relies on: `push`, `findIndex`
    and `splice`, with the semantics ECMAScript gives them (Array.prototype.push,
    Array.prototype.findIndex, Array.prototype.splice). */
module JsArrays {

  /** The index `findIndex(p)` yields on `s`: the first position whose element
      satisfies `p`, or -1 when there is none. */
  function FirstIndex<T>(s: seq<T>, p: T -> bool): (k: int)
    ensures -1 <= k < |s|
    ensures 0 <= k ==> p(s[k]) && forall j :: 0 <= j < k ==> !p(s[j])
    ensures k == -1 <==> forall j :: 0 <= j < |s| ==> !p(s[j])
  {
    if s == [] then -1
    else if p(s[0]) then 0
    else
      var k := FirstIndex(s[1..], p);
      if k == -1 then -1 else k + 1
  }

  /** The actual start position of `splice(start, ...)` on an array of length
      `len`: a negative start counts back from the end, and the result is
      clamped to `0 .. len`. */
  function SpliceStart(len: nat, start: int): (a: nat)
    ensures a <= len
    ensures 0 <= start <= len ==> a == start
    ensures start > len ==> a == len
    ensures start < 0 && -start <= len ==> a == len + start
    ensures -start > len ==> a == 0
  {
    if start < 0 then (if len + start < 0 then 0 else len + start)
    else if start < len then start
    else len
  }

  /** The actual number of elements `splice(start, deleteCount)` removes:
      `deleteCount` clamped to `0 .. len - start`. */
  function SpliceCount(len: nat, start: nat, deleteCount: int): (c: nat)
    requires start <= len
    ensures start + c <= len
    ensures 0 <= deleteCount <= len - start ==> c == deleteCount
    ensures deleteCount < 0 ==> c == 0
    ensures deleteCount > len - start ==> c == len - start
  {
    if deleteCount < 0 then 0
    else if deleteCount < len - start then deleteCount
    else len - start
  }

  /** The array contents left by `splice(start, deleteCount)` (no insertions). */
  function Spliced<T>(s: seq<T>, start: int, deleteCount: int): (r: seq<T>)
    ensures var a := SpliceStart(|s|, start);
            |r| == |s| - SpliceCount(|s|, a, deleteCount) && r[..a] == s[..a]
    ensures var a := SpliceStart(|s|, start);
            forall i :: a <= i < |r| ==> r[i] == s[i + SpliceCount(|s|, a, deleteCount)]
  {
    var a := SpliceStart(|s|, start);
    var c := SpliceCount(|s|, a, deleteCount);
    s[..a] + s[a + c..]
  }

  /** The elements `splice(start, deleteCount)` returns: the removed run. */
  function SpliceRemoved<T>(s: seq<T>, start: int, deleteCount: int): (r: seq<T>)
    ensures var a := SpliceStart(|s|, start);
            |r| == SpliceCount(|s|, a, deleteCount) && forall i :: 0 <= i < |r| ==> r[i] == s[a + i]
  {
    var a := SpliceStart(|s|, start);
    var c := SpliceCount(|s|, a, deleteCount);
    s[a..a + c]
  }

  /** Splicing loses nothing: the removed run put back at the actual start
      gives the original contents, so the two parts are a permutation of it. */
  lemma SpliceReassembles<T>(s: seq<T>, start: int, deleteCount: int)
    ensures var a := SpliceStart(|s|, start);
            s == Spliced(s, start, deleteCount)[..a] + SpliceRemoved(s, start, deleteCount)
                 + Spliced(s, start, deleteCount)[a..]
    ensures multiset(Spliced(s, start, deleteCount)) + multiset(SpliceRemoved(s, start, deleteCount))
            == multiset(s)
  {
    var a := SpliceStart(|s|, start);
    var c := SpliceCount(|s|, a, deleteCount);
    var r := Spliced(s, start, deleteCount);
    assert r[..a] == s[..a];
    assert r[a..] == s[a + c..];
    assert s == s[..a] + s[a..a + c] + s[a + c..];
    calc {
      multiset(s);
      multiset(s[..a] + s[a..a + c] + s[a + c..]);
      multiset(s[..a]) + multiset(s[a..a + c]) + multiset(s[a + c..]);
      multiset(s[..a] + s[a + c..]) + multiset(s[a..a + c]);
    }
  }

  /** `splice(k, 1)` at a valid index removes exactly the element at `k`. */
  lemma SpliceOneAt<T>(s: seq<T>, k: int)
    requires 0 <= k < |s|
    ensures Spliced(s, k, 1) == s[..k] + s[k + 1..]
    ensures SpliceRemoved(s, k, 1) == [s[k]]
  {
  }

  /** `splice(-1, 1)` on a non-empty array removes its LAST element. */
  lemma SpliceMinusOneRemovesLast<T>(s: seq<T>)
    requires |s| > 0
    ensures Spliced(s, -1, 1) == s[..|s| - 1]
    ensures SpliceRemoved(s, -1, 1) == [s[|s| - 1]]
  {
  }

  /** Splicing an empty array leaves it empty and removes nothing. */
  lemma SpliceEmpty<T>(start: int, deleteCount: int)
    ensures Spliced<T>([], start, deleteCount) == []
    ensures SpliceRemoved<T>([], start, deleteCount) == []
  {
  }

  /** A JavaScript array that is updated in place. */
  class JsArray<T> {
    var elems: seq<T>

    constructor (init: seq<T>)
      ensures elems == init
    {
      elems := init;
    }

    /** `push(x)`: appends `x` and returns the new length. */
    method Push(x: T) returns (length: nat)
      modifies this
      ensures elems == old(elems) + [x]
      ensures length == |elems|
    {
      elems := elems + [x];
      length := |elems|;
    }

    /** `findIndex(p)`: scans from the front for the first element satisfying `p`. */
    method FindIndex(p: T -> bool) returns (index: int)
      ensures index == FirstIndex(elems, p)
    {
      var k := 0;
      while k < |elems|
        invariant 0 <= k <= |elems|
        invariant forall j :: 0 <= j < k ==> !p(elems[j])
      {
        if p(elems[k]) {
          return k;
        }
        k := k + 1;
      }
      return -1;
    }

    /** `splice(start, deleteCount)`: removes the run the ECMAScript rules
        select and returns it. */
    method Splice(start: int, deleteCount: int) returns (removed: seq<T>)
      modifies this
      ensures elems == Spliced(old(elems), start, deleteCount)
      ensures removed == SpliceRemoved(old(elems), start, deleteCount)
    {
      var a := SpliceStart(|elems|, start);
      var c := SpliceCount(|elems|, a, deleteCount);
      removed := elems[a..a + c];
      elems := elems[..a] + elems[a + c..];
    }
  }
}
