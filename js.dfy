/**
 * The JavaScript built-ins the index route chains together, on strings
 * and on arrays of possibly-undefined strings: `filter((v) => v)`,
 * `join`, `String.prototype.replace` with a string pattern (and a
 * replacement without `$` patterns) and
 * `String.prototype.replaceAll` of a one-character pattern by "".
 */
module Js {
  import opened Wrappers

  /** JavaScript truthiness of a string-or-undefined: the only falsy
      values are undefined and "". */
  predicate Truthy(v: Option<string>)
    ensures Truthy(v) <==> v != None && v != Some("")
  {
    v.Some? && v.value != ""
  }

  /** `xs.filter((v) => v)`: the truthy strings of `xs`, in their order. */
  function FilterTruthy(xs: seq<Option<string>>): (r: seq<string>)
    ensures |r| <= |xs|
    ensures forall k :: 0 <= k < |r| ==> r[k] != "" && Some(r[k]) in xs
  {
    if xs == [] then []
    else if Truthy(xs[0]) then [xs[0].value] + FilterTruthy(xs[1..])
    else FilterTruthy(xs[1..])
  }

  /** Every truthy element survives the filter. */
  lemma {:induction false} FilterTruthyKeeps(xs: seq<Option<string>>, i: nat)
    requires i < |xs| && Truthy(xs[i])
    ensures xs[i].value in FilterTruthy(xs)
  {
    if i > 0 {
      FilterTruthyKeeps(xs[1..], i - 1);
    }
  }

  /** The filter distributes over concatenation, so it keeps relative order. */
  lemma {:induction false} FilterTruthyAppend(xs: seq<Option<string>>, ys: seq<Option<string>>)
    ensures FilterTruthy(xs + ys) == FilterTruthy(xs) + FilterTruthy(ys)
  {
    if xs == [] {
      assert xs + ys == ys;
    } else {
      assert (xs + ys)[0] == xs[0];
      assert (xs + ys)[1..] == xs[1..] + ys;
      FilterTruthyAppend(xs[1..], ys);
    }
  }

  /** A one-element array keeps its element exactly when it is truthy. */
  lemma FilterTruthySingle(x: Option<string>)
    ensures FilterTruthy([x]) == if Truthy(x) then [x.value] else []
  {
    assert [x][1..] == [];
  }

  /** Wraps every string as a present value. */
  function Present(ss: seq<string>): (r: seq<Option<string>>)
    ensures |r| == |ss|
    ensures forall k :: 0 <= k < |r| ==> r[k] == Some(ss[k])
  {
    seq(|ss|, k requires 0 <= k < |ss| => Some(ss[k]))
  }

  /** Filtering an already filtered array changes nothing. */
  lemma {:induction false} FilterTruthyIdempotent(ss: seq<string>)
    requires forall k :: 0 <= k < |ss| ==> ss[k] != ""
    ensures FilterTruthy(Present(ss)) == ss
  {
    if ss != [] {
      var xs := Present(ss);
      assert Truthy(xs[0]);
      assert xs[1..] == Present(ss[1..]);
      assert FilterTruthy(xs) == [ss[0]] + FilterTruthy(xs[1..]);
      FilterTruthyIdempotent(ss[1..]);
      assert ss == [ss[0]] + ss[1..];
    }
  }

  /** Total length of the parts. */
  function TotalLength(parts: seq<string>): nat {
    if parts == [] then 0 else |parts[0]| + TotalLength(parts[1..])
  }

  /** `parts.join(sep)`: "" for no parts, the part itself for one, and in
      general the parts plus one separator between each neighbouring pair. */
  function Join(parts: seq<string>, sep: string): (r: string)
    ensures |parts| == 0 ==> r == ""
    ensures |parts| == 1 ==> r == parts[0]
    ensures |parts| > 0 ==> |r| == TotalLength(parts) + (|parts| - 1) * |sep|
  {
    if |parts| == 0 then ""
    else if |parts| == 1 then parts[0]
    else parts[0] + sep + Join(parts[1..], sep)
  }

  /** Joining the truthy ones of two values: both with the separator
      between them, one alone, or "" when neither is truthy. */
  lemma JoinTruthyPair(x: Option<string>, y: Option<string>, sep: string)
    ensures Join(FilterTruthy([x, y]), sep) ==
      if Truthy(x) && Truthy(y) then x.value + sep + y.value
      else if Truthy(x) then x.value
      else if Truthy(y) then y.value
      else ""
  {
    assert [x, y] == [x] + [y];
    FilterTruthyAppend([x], [y]);
    FilterTruthySingle(x);
    FilterTruthySingle(y);
    var names := FilterTruthy([x, y]);
    if Truthy(x) && Truthy(y) {
      assert names == [x.value, y.value];
      assert names[1..] == [y.value];
      assert Join(names, sep) == x.value + sep + Join([y.value], sep);
    }
  }

  /** `sep + t[0] + sep + t[1] + ...`: the separators of a join laid out before each part. */
  function Prefixed(t: seq<string>, sep: string): string {
    if t == [] then "" else sep + t[0] + Prefixed(t[1..], sep)
  }

  /** A non-empty join is its first part followed by every other part preceded by the separator. */
  lemma {:induction false} JoinAsPrefixed(parts: seq<string>, sep: string)
    requires |parts| > 0
    ensures Join(parts, sep) == parts[0] + Prefixed(parts[1..], sep)
  {
    if |parts| > 1 {
      JoinAsPrefixed(parts[1..], sep);
      assert parts[1..][1..] == parts[2..];
    }
  }

  /** `pat` sits at index `i` of `s`. */
  predicate OccursAt(s: string, pat: string, i: nat) {
    i + |pat| <= |s| && s[i..i + |pat|] == pat
  }

  /** `s.replace(pat, rep)` with a string pattern and a replacement
      without `$` patterns: only the first occurrence is replaced, so the
      length changes at most once by `|rep| - |pat|`. */
  function ReplaceFirst(s: string, pat: string, rep: string): (r: string)
    ensures |r| == |s| || |r| == |s| - |pat| + |rep|
    decreases |s|
  {
    if |s| < |pat| then s
    else if s[..|pat|] == pat then rep + s[|pat|..]
    else [s[0]] + ReplaceFirst(s[1..], pat, rep)
  }

  lemma OccursShift(s: string, pat: string, i: nat)
    requires |s| > 0
    ensures OccursAt(s[1..], pat, i) <==> OccursAt(s, pat, i + 1)
  {
    if i + 1 + |pat| <= |s| {
      assert s[1..][i..i + |pat|] == s[i + 1..i + 1 + |pat|];
    }
  }

  /** Without an occurrence of `pat`, replace returns `s` unchanged. */
  lemma {:induction false} ReplaceFirstAbsent(s: string, pat: string, rep: string)
    requires forall i: nat :: !OccursAt(s, pat, i)
    ensures ReplaceFirst(s, pat, rep) == s
  {
    if |s| >= |pat| {
      assert !OccursAt(s, pat, 0);
      forall i: nat ensures !OccursAt(s[1..], pat, i) {
        OccursShift(s, pat, i);
      }
      ReplaceFirstAbsent(s[1..], pat, rep);
      assert [s[0]] + s[1..] == s;
    }
  }

  /** With a first occurrence at `k`, replace splices `rep` (taken
      literally) in place of that occurrence only. */
  lemma {:induction false} ReplaceFirstAt(s: string, pat: string, rep: string, k: nat)
    requires OccursAt(s, pat, k)
    requires forall i: nat :: i < k ==> !OccursAt(s, pat, i)
    ensures ReplaceFirst(s, pat, rep) == s[..k] + rep + s[k + |pat|..]
  {
    if k == 0 {
      assert s[..|pat|] == pat;
    } else {
      var t := s[1..];
      assert !OccursAt(s, pat, 0);
      assert ReplaceFirst(s, pat, rep) == [s[0]] + ReplaceFirst(t, pat, rep);
      OccursShift(s, pat, k - 1);
      forall i: nat | i < k - 1 ensures !OccursAt(t, pat, i) {
        OccursShift(s, pat, i);
      }
      ReplaceFirstAt(t, pat, rep, k - 1);
      SpliceShift(s, rep, k, |pat|);
    }
  }

  /** Replacing in the pattern itself gives the replacement; replacing
      in a string without the pattern gives the string back; otherwise the
      first occurrence, and only it, is replaced. */
  lemma ReplaceFirstCases(s: string, pat: string, rep: string)
    ensures s == pat ==> ReplaceFirst(s, pat, rep) == rep
    ensures (forall i: nat :: !OccursAt(s, pat, i)) ==> ReplaceFirst(s, pat, rep) == s
    ensures forall k: nat :: OccursAt(s, pat, k) && (forall i: nat :: i < k ==> !OccursAt(s, pat, i)) ==>
      ReplaceFirst(s, pat, rep) == s[..k] + rep + s[k + |pat|..]
  {
    forall k: nat | OccursAt(s, pat, k) && (forall i: nat :: i < k ==> !OccursAt(s, pat, i))
      ensures ReplaceFirst(s, pat, rep) == s[..k] + rep + s[k + |pat|..]
    {
      ReplaceFirstAt(s, pat, rep, k);
    }
    if s == pat {
      assert OccursAt(s, pat, 0);
      ReplaceFirstAt(s, pat, rep, 0);
    } else if forall i: nat :: !OccursAt(s, pat, i) {
      ReplaceFirstAbsent(s, pat, rep);
    }
  }

  /** Splicing into the tail of `s` and putting back its head is splicing into `s`. */
  lemma SpliceShift(s: string, rep: string, k: nat, n: nat)
    requires 0 < k && k + n <= |s|
    ensures [s[0]] + (s[1..][..k - 1] + rep + s[1..][k - 1 + n..]) == s[..k] + rep + s[k + n..]
  {
    assert s[1..][..k - 1] == s[1..k];
    assert s[1..][k - 1 + n..] == s[k + n..];
    assert [s[0]] + s[1..k] == s[..k];
  }

  /** The least index at which `pat` occurs, given some index where it does. */
  lemma FirstOccurrence(s: string, pat: string, k: nat) returns (first: nat)
    requires OccursAt(s, pat, k)
    ensures first <= k && OccursAt(s, pat, first)
    ensures forall i: nat :: i < first ==> !OccursAt(s, pat, i)
    decreases k
  {
    if j: nat :| j < k && OccursAt(s, pat, j) {
      first := FirstOccurrence(s, pat, j);
    } else {
      first := k;
    }
  }

  /** `s.replaceAll(c, "")` for a one-character pattern: every `c` removed. */
  function RemoveAll(s: string, c: char): (r: string)
    ensures c !in r
    ensures |r| <= |s|
  {
    if s == [] then []
    else (if s[0] == c then [] else [s[0]]) + RemoveAll(s[1..], c)
  }

  /** Removal distributes over concatenation, so the kept characters keep their order. */
  lemma {:induction false} RemoveAllAppend(s: string, t: string, c: char)
    ensures RemoveAll(s + t, c) == RemoveAll(s, c) + RemoveAll(t, c)
  {
    if s == [] {
      assert s + t == t;
    } else {
      assert (s + t)[0] == s[0];
      assert (s + t)[1..] == s[1..] + t;
      RemoveAllAppend(s[1..], t, c);
    }
  }

  /** Every character other than `c` is kept, as often as it occurs. */
  lemma {:induction false} RemoveAllKeepsOthers(s: string, c: char, d: char)
    requires d != c
    ensures multiset(RemoveAll(s, c))[d] == multiset(s)[d]
  {
    if s != [] {
      RemoveAllKeepsOthers(s[1..], c, d);
      assert s == [s[0]] + s[1..];
    }
  }

  /** A string without `c` is left as it is. */
  lemma {:induction false} RemoveAllAbsent(s: string, c: char)
    requires c !in s
    ensures RemoveAll(s, c) == s
  {
    if s != [] {
      RemoveAllAbsent(s[1..], c);
      assert [s[0]] + s[1..] == s;
    }
  }

  /** Removing twice is removing once. */
  lemma RemoveAllIdempotent(s: string, c: char)
    ensures RemoveAll(RemoveAll(s, c), c) == RemoveAll(s, c)
  {
    RemoveAllAbsent(RemoveAll(s, c), c);
  }
}
