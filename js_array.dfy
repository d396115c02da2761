/**
 * The two JavaScript array primitives the editor's handlers rely on, with the argument
 * normalisation of the ECMAScript definition of Array.prototype.splice: a negative start
 * counts from the end, a start past the end appends, and the delete count is cut to what
 * is left after the start.
 */
module JsArray {

  /** The index at which splice(start, ...) acts on an array of length len. */
  function SpliceStart(start: int, len: nat): (st: nat)
    ensures st <= len
    ensures 0 <= start <= len ==> st == start
    ensures start > len ==> st == len
    ensures start < 0 ==> st == (if len + start < 0 then 0 else len + start)
  {
    if start < 0 then (if len + start < 0 then 0 else len + start)
    else if start > len then len
    else start
  }

  /** The array that a.splice(start, deleteCount, ...items) leaves behind. */
  function Splice<T>(s: seq<T>, start: int, deleteCount: int, items: seq<T>): seq<T>
  {
    var st := SpliceStart(start, |s|);
    var dc := if deleteCount < 0 then 0 else if deleteCount > |s| - st then |s| - st else deleteCount;
    s[..st] + items + s[st + dc..]
  }

  /** Removing one element in range: the array without it. */
  lemma RemoveOne<T>(s: seq<T>, i: nat)
    requires i < |s|
    ensures Splice(s, i, 1, []) == s[..i] + s[i + 1..]
    ensures multiset(Splice(s, i, 1, [])) + multiset{s[i]} == multiset(s)
  {
    assert s == s[..i] + [s[i]] + s[i + 1..];
    assert multiset(s) == multiset(s[..i]) + multiset{s[i]} + multiset(s[i + 1..]);
  }

  /** Inserting one element at a normalised position. */
  lemma InsertOne<T>(s: seq<T>, start: int, x: T)
    ensures var st := SpliceStart(start, |s|);
            Splice(s, start, 0, [x]) == s[..st] + [x] + s[st..]
    ensures multiset(Splice(s, start, 0, [x])) == multiset(s) + multiset{x}
  {
    var st := SpliceStart(start, |s|);
    assert s == s[..st] + s[st..];
    assert multiset(s) == multiset(s[..st]) + multiset(s[st..]);
  }
}
