/**
 String operations the stub logic relies on: Swift's `<` on strings, `lowercased()`,
 and `components(separatedBy:)` for the header-field separator `[:::]`.
 */
module Text {

  /** Swift's `a < b` on strings, as lexicographic order on characters. */
  predicate Less(a: string, b: string)
    decreases |a|
  {
    if |a| == 0 then |b| > 0
    else if |b| == 0 then false
    else if a[0] < b[0] then true
    else if a[0] == b[0] then Less(a[1..], b[1..])
    else false
  }

  lemma {:induction false} LessAsymmetric(a: string, b: string)
    requires Less(a, b)
    ensures !Less(b, a)
    decreases |a|
  {
    if |a| > 0 && |b| > 0 && a[0] == b[0] {
      LessAsymmetric(a[1..], b[1..]);
    }
  }

  lemma {:induction false} LessTransitive(a: string, b: string, c: string)
    requires Less(a, b) && Less(b, c)
    ensures Less(a, c)
    decreases |a|
  {
    if |a| > 0 && a[0] == b[0] && b[0] == c[0] {
      LessTransitive(a[1..], b[1..], c[1..]);
    }
  }

  lemma {:induction false} LessTotal(a: string, b: string)
    requires a != b
    ensures Less(a, b) || Less(b, a)
    decreases |a|
  {
    if |a| > 0 && |b| > 0 && a[0] == b[0] {
      assert a == [a[0]] + a[1..] && b == [b[0]] + b[1..];
      LessTotal(a[1..], b[1..]);
    }
  }

  /** `Less` is a strict total order on strings. */
  lemma LessIsStrictTotal()
    ensures forall a, b :: Less(a, b) ==> !Less(b, a)
    ensures forall a, b, c :: Less(a, b) && Less(b, c) ==> Less(a, c)
    ensures forall a, b :: a != b ==> Less(a, b) || Less(b, a)
  {
    forall a, b | Less(a, b) ensures !Less(b, a) {
      LessAsymmetric(a, b);
    }
    forall a, b, c | Less(a, b) && Less(b, c) ensures Less(a, c) {
      LessTransitive(a, b, c);
    }
    forall a, b | a != b ensures Less(a, b) || Less(b, a) {
      LessTotal(a, b);
    }
  }

  /** `lowercased()` on one character; only ASCII letters are folded. */
  function LowerChar(c: char): char {
    if 'A' <= c <= 'Z' then (c as int + 32) as char else c
  }

  /** `lowercased()` on a string. */
  function Lower(s: string): (r: string)
    ensures |r| == |s|
    ensures forall i :: 0 <= i < |s| ==> r[i] == LowerChar(s[i])
  {
    if |s| == 0 then "" else [LowerChar(s[0])] + Lower(s[1..])
  }

  /** The literal that joins a header name to its value in a stub file. */
  const Separator: string := "[:::]"

  /** `sep` starts at position `i` of `s`. */
  predicate OccursAt(s: string, i: nat) {
    i + |Separator| <= |s| && s[i..i + |Separator|] == Separator
  }

  /** `s` holds the separator somewhere. */
  predicate ContainsSeparator(s: string) {
    exists i: nat | i < |s| :: OccursAt(s, i)
  }

  /**
   `components(separatedBy:)` from position `i`, with the current component starting at `start`:
   scans left to right and cuts at every non-overlapping occurrence of the separator.
   */
  function ComponentsFrom(s: string, start: nat, i: nat): (parts: seq<string>)
    requires start <= i <= |s|
    ensures |parts| >= 1
    decreases |s| - i
  {
    if i + |Separator| > |s| then [s[start..]]
    else if s[i..i + |Separator|] == Separator then
      [s[start..i]] + ComponentsFrom(s, i + |Separator|, i + |Separator|)
    else ComponentsFrom(s, start, i + 1)
  }

  /** `s.components(separatedBy: "[:::]")`: never empty. */
  function Components(s: string): seq<string> {
    ComponentsFrom(s, 0, 0)
  }

  /** Skipping positions where the separator does not occur changes nothing. */
  lemma {:induction false} SkipNonOccurrences(s: string, start: nat, i: nat, k: nat)
    requires start <= i <= k <= |s|
    requires forall j: nat :: i <= j < k ==> !OccursAt(s, j)
    ensures ComponentsFrom(s, start, i) == ComponentsFrom(s, start, k)
    decreases k - i
  {
    if i < k {
      assert !OccursAt(s, i);
      if i + |Separator| <= |s| {
        SkipNonOccurrences(s, start, i + 1, k);
      } else {
        SkipTail(s, start, k);
      }
    }
  }

  /** Near the end of the string no separator fits, so the rest is one component. */
  lemma SkipTail(s: string, start: nat, k: nat)
    requires start <= k <= |s| && k + |Separator| > |s|
    ensures ComponentsFrom(s, start, k) == [s[start..]]
  {
  }

  /** A string without the separator is a single component. */
  lemma {:induction false} ComponentsOfPlain(s: string)
    requires !ContainsSeparator(s)
    ensures Components(s) == [s]
  {
    SkipNonOccurrences(s, 0, 0, |s|);
  }

  /**
   Splitting `name + "[:::]" + value` gives back `[name, value]` when neither part holds the
   separator: the separator's first character `[` occurs nowhere else in it, so no occurrence
   can straddle the boundary.
   */
  lemma {:induction false} ComponentsOfJoined(name: string, value: string)
    requires !ContainsSeparator(name) && !ContainsSeparator(value)
    ensures Components(name + Separator + value) == [name, value]
  {
    var s := name + Separator + value;
    var n := |name|;
    var m := n + |Separator|;
    NoOccurrenceBefore(name, value);
    SkipNonOccurrences(s, 0, 0, n);
    assert s[n..m] == Separator;
    assert ComponentsFrom(s, 0, n) == [s[0..n]] + ComponentsFrom(s, m, m);
    NoOccurrenceAfter(name, value);
    SkipNonOccurrences(s, m, m, |s|);
    SkipTail(s, m, |s|);
    assert s[0..n] == name && s[m..] == value;
  }

  /** In `name + "[:::]" + value`, no separator starts inside `name`. */
  lemma NoOccurrenceBefore(name: string, value: string)
    requires !ContainsSeparator(name)
    ensures forall j: nat :: j < |name| ==> !OccursAt(name + Separator + value, j)
  {
    var s := name + Separator + value;
    var n := |name|;
    forall j: nat | j < n ensures !OccursAt(s, j) {
      if j + |Separator| <= n {
        assert s[j..j + |Separator|] == name[j..j + |Separator|];
        assert !OccursAt(name, j);
      } else {
        var d := n - j;
        assert 1 <= d < |Separator|;
        assert s[n] == '[';
        assert Separator[d] != '[';
      }
    }
  }

  /** In `name + "[:::]" + value`, no separator starts inside `value`. */
  lemma NoOccurrenceAfter(name: string, value: string)
    requires !ContainsSeparator(value)
    ensures forall j: nat :: |name| + |Separator| <= j < |name + Separator + value| ==> !OccursAt(name + Separator + value, j)
  {
    var s := name + Separator + value;
    var m := |name| + |Separator|;
    forall j: nat | m <= j < |s| ensures !OccursAt(s, j) {
      if OccursAt(s, j) {
        assert s[j..j + |Separator|] == value[j - m..j - m + |Separator|];
        assert OccursAt(value, j - m);
      }
    }
  }
}
