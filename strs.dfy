/**
 * The JavaScript and SQL string operations the vault relies on:
 * Array.prototype.join, String.prototype.split(", "),
 * String.prototype.includes, and SQLite's BINARY ordering of names.
 */
module Strs {
  import opened Wrappers

  /** Array.prototype.join: [] gives "", [x] gives x. */
  function Join(parts: seq<string>, sep: string): string
  {
    if |parts| == 0 then "" else if |parts| == 1 then parts[0] else parts[0] + sep + Join(parts[1..], sep)
  }

  /** The separator ", " of GROUP_CONCAT(name, ', ') and of split(', ') occurs at index j. */
  predicate SepAt(s: string, j: int) {
    0 <= j && j + 1 < |s| && s[j] == ',' && s[j + 1] == ' '
  }

  /** The first occurrence of ", " in s, if any. */
  function FindSep(s: string): (r: Option<nat>)
    ensures r.Some? ==> SepAt(s, r.value) && forall j :: 0 <= j < r.value ==> !SepAt(s, j)
    ensures r.None? ==> forall j :: 0 <= j < |s| ==> !SepAt(s, j)
  {
    if |s| < 2 then None
    else if s[0] == ',' && s[1] == ' ' then Some(0)
    else
      match FindSep(s[1..])
      case None =>
        assert forall j :: 1 <= j < |s| ==> SepAt(s, j) == SepAt(s[1..], j - 1);
        None
      case Some(i) =>
        assert forall j :: 1 <= j <= i + 1 ==> SepAt(s, j) == SepAt(s[1..], j - 1);
        Some(i + 1)
  }

  /** String.prototype.split(", "): cut at every occurrence, left to right. */
  function Split(s: string): (parts: seq<string>)
    ensures |parts| >= 1
    decreases |s|
  {
    match FindSep(s)
    case None => [s]
    case Some(i) => [s[..i]] + Split(s[i + 2..])
  }

  /** Splitting the ", "-join of comma-free parts gives the parts back. */
  lemma {:induction false} SplitJoin(parts: seq<string>)
    requires |parts| >= 1
    requires forall k :: 0 <= k < |parts| ==> ',' !in parts[k]
    ensures Split(Join(parts, ", ")) == parts
  {
    var x := parts[0];
    if |parts| == 1 {
      assert forall j :: 0 <= j < |x| ==> !SepAt(x, j) by {
        forall j | 0 <= j < |x| ensures !SepAt(x, j) { assert x[j] in x; }
      }
    } else {
      var rest := Join(parts[1..], ", ");
      var s := x + ", " + rest;
      forall j | 0 <= j < |x| ensures !SepAt(s, j) { assert s[j] == x[j] && x[j] in x; }
      assert SepAt(s, |x|);
      assert FindSep(s) == Some(|x|);
      assert s[..|x|] == x && s[|x| + 2..] == rest;
      SplitJoin(parts[1..]);
    }
  }

  /** needle occurs in hay at index i. */
  predicate OccursAt(hay: string, needle: string, i: int) {
    0 <= i && i + |needle| <= |hay| && hay[i..i + |needle|] == needle
  }

  /** String.prototype.includes. */
  function Contains(hay: string, needle: string): (b: bool)
    ensures b <==> exists i :: OccursAt(hay, needle, i)
    decreases |hay|
  {
    if |needle| <= |hay| && hay[..|needle|] == needle then
      assert OccursAt(hay, needle, 0);
      true
    else if hay == [] then
      false
    else
      var r := Contains(hay[1..], needle);
      assert forall i :: 1 <= i ==> OccursAt(hay, needle, i) == OccursAt(hay[1..], needle, i - 1);
      assert forall j :: 0 <= j ==> OccursAt(hay[1..], needle, j) == OccursAt(hay, needle, j + 1);
      assert !OccursAt(hay, needle, 0);
      r
  }

  /** SQLite's BINARY collation on names: code point order, a prefix first. */
  predicate LexLeq(a: string, b: string)
    decreases |a|
  {
    a == [] || (b != [] && (a[0] < b[0] || (a[0] == b[0] && LexLeq(a[1..], b[1..]))))
  }

  lemma {:induction false} LexLeqTotal(a: string, b: string)
    ensures LexLeq(a, b) || LexLeq(b, a)
    decreases |a|
  {
    if a != [] && b != [] && a[0] == b[0] {
      LexLeqTotal(a[1..], b[1..]);
    }
  }

  lemma {:induction false} LexLeqTrans(a: string, b: string, c: string)
    requires LexLeq(a, b) && LexLeq(b, c)
    ensures LexLeq(a, c)
    decreases |a|
  {
    if a != [] && b != [] && c != [] && a[0] == b[0] == c[0] {
      LexLeqTrans(a[1..], b[1..], c[1..]);
    }
  }

  lemma {:induction false} LexLeqAntisym(a: string, b: string)
    requires LexLeq(a, b) && LexLeq(b, a)
    ensures a == b
    decreases |a|
  {
    if a != [] {
      LexLeqAntisym(a[1..], b[1..]);
      assert a == [a[0]] + a[1..] && b == [b[0]] + b[1..];
    }
  }
}
