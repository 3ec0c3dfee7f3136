/** String operations of JavaScript that the interception layer relies on. */
module Strings {
  import opened Wrappers

  /** `pat` occurs in `s` starting at index `i`. */
  predicate Occurs(s: string, pat: string, i: nat) {
    i + |pat| <= |s| && s[i..i + |pat|] == pat
  }

  /** `s.indexOf(pat, from)`: the first index at or after `from` where `pat` occurs, if any. */
  function IndexOf(s: string, pat: string, from: nat): (r: Option<nat>)
    ensures r.Some? ==> from <= r.value && Occurs(s, pat, r.value)
    ensures r.Some? ==> forall j: nat :: from <= j < r.value ==> !Occurs(s, pat, j)
    ensures r.None? ==> forall j: nat :: from <= j ==> !Occurs(s, pat, j)
    decreases |s| - from
  {
    if from + |pat| > |s| then None
    else if Occurs(s, pat, from) then Some(from)
    else IndexOf(s, pat, from + 1)
  }

  /** The text `replace` inserts for one match of a string pattern (the abstract operation
      GetSubstitution of ECMA-262): `$$` stands for `$`, `$&` for the matched text,
      `` $` `` for the text before the match and `$'` for the text after it. A string
      pattern has no capture groups, so `$1`, `$<` and any other `$` are kept as written. */
  function Substitute(rep: string, matched: string, before: string, after: string): string
    decreases |rep|
  {
    if |rep| == 0 then ""
    else if rep[0] == '$' && |rep| >= 2 && rep[1] == '$' then "$" + Substitute(rep[2..], matched, before, after)
    else if rep[0] == '$' && |rep| >= 2 && rep[1] == '&' then matched + Substitute(rep[2..], matched, before, after)
    else if rep[0] == '$' && |rep| >= 2 && rep[1] == '`' then before + Substitute(rep[2..], matched, before, after)
    else if rep[0] == '$' && |rep| >= 2 && rep[1] == '\'' then after + Substitute(rep[2..], matched, before, after)
    else [rep[0]] + Substitute(rep[1..], matched, before, after)
  }

  /** `String.prototype.replace` with a string pattern: only the FIRST occurrence of `pat`
      is replaced, by `rep` with its `$` patterns expanded; a string without an occurrence
      is returned unchanged. An empty pattern matches at index 0. */
  function Replace(s: string, pat: string, rep: string): string {
    ReplaceFrom(s, pat, rep, 0)
  }

  /** `Replace` with the search for `pat` starting at index `from`. */
  function ReplaceFrom(s: string, pat: string, rep: string, from: nat): string
    decreases |s| - from
  {
    if from + |pat| > |s| then s
    else if Occurs(s, pat, from) then s[..from] + Substitute(rep, pat, s[..from], s[from + |pat|..]) + s[from + |pat|..]
    else ReplaceFrom(s, pat, rep, from + 1)
  }

  /** `ReplaceFrom` replaces the occurrence `indexOf` finds. */
  lemma {:induction false} ReplaceFromFound(s: string, pat: string, rep: string, from: nat, i: nat)
    requires IndexOf(s, pat, from) == Some(i)
    ensures ReplaceFrom(s, pat, rep, from) == s[..i] + Substitute(rep, pat, s[..i], s[i + |pat|..]) + s[i + |pat|..]
    decreases |s| - from
  {
    if from + |pat| <= |s| && !Occurs(s, pat, from) {
      ReplaceFromFound(s, pat, rep, from + 1, i);
    }
  }

  /** `ReplaceFrom` changes nothing when `indexOf` finds no occurrence. */
  lemma {:induction false} ReplaceFromNotFound(s: string, pat: string, rep: string, from: nat)
    requires IndexOf(s, pat, from).None?
    ensures ReplaceFrom(s, pat, rep, from) == s
    decreases |s| - from
  {
    if from + |pat| <= |s| && !Occurs(s, pat, from) {
      ReplaceFromNotFound(s, pat, rep, from + 1);
    }
  }

  /** A replacement without `$` is inserted as written. */
  lemma {:induction false} SubstituteLiteral(rep: string, matched: string, before: string, after: string)
    requires '$' !in rep
    ensures Substitute(rep, matched, before, after) == rep
    decreases |rep|
  {
    if |rep| > 0 {
      assert rep[0] != '$';
      assert rep == [rep[0]] + rep[1..];
      SubstituteLiteral(rep[1..], matched, before, after);
    }
  }

  /** The longer the text after the match, the longer the expansion (each `$'` inserts it). */
  lemma {:induction false} SubstituteLengthMonotone(rep: string, matched: string, before: string, after1: string, after2: string)
    requires |after1| <= |after2|
    ensures |Substitute(rep, matched, before, after1)| <= |Substitute(rep, matched, before, after2)|
    decreases |rep|
  {
    if |rep| == 0 {
    } else if rep[0] == '$' && |rep| >= 2 && rep[1] in "$&`'" {
      SubstituteLengthMonotone(rep[2..], matched, before, after1, after2);
    } else {
      SubstituteLengthMonotone(rep[1..], matched, before, after1, after2);
    }
  }

  /** A string without an occurrence of `pat` is left unchanged by `Replace`. */
  lemma ReplaceWithoutOccurrence(s: string, pat: string, rep: string)
    requires forall i: nat :: !Occurs(s, pat, i)
    ensures Replace(s, pat, rep) == s
  {
    assert IndexOf(s, pat, 0).None?;
    ReplaceFromNotFound(s, pat, rep, 0);
  }

  /** `Replace` substitutes the first occurrence of `pat` and keeps everything around it. */
  lemma ReplaceAtFirstOccurrence(s: string, pat: string, rep: string, i: nat)
    requires Occurs(s, pat, i)
    requires forall j: nat :: j < i ==> !Occurs(s, pat, j)
    ensures Replace(s, pat, rep) == s[..i] + Substitute(rep, pat, s[..i], s[i + |pat|..]) + s[i + |pat|..]
  {
    assert IndexOf(s, pat, 0) == Some(i);
    ReplaceFromFound(s, pat, rep, 0, i);
  }

  /** A string that starts with `pat` has that prefix replaced; there is no text before it. */
  lemma ReplaceAtStart(s: string, pat: string, rep: string)
    requires pat <= s
    ensures Replace(s, pat, rep) == Substitute(rep, pat, "", s[|pat|..]) + s[|pat|..]
  {
    assert Occurs(s, pat, 0);
    ReplaceAtFirstOccurrence(s, pat, rep, 0);
    assert s[..0] == "";
  }

  /** Replacing an occurrence by a literal text changes the length by the difference. */
  lemma ReplaceLiteralLength(s: string, pat: string, rep: string, k: nat)
    requires Occurs(s, pat, k)
    requires '$' !in rep
    ensures |Replace(s, pat, rep)| == |s| - |pat| + |rep|
  {
    assert IndexOf(s, pat, 0).Some?;
    var i := IndexOf(s, pat, 0).value;
    ReplaceFromFound(s, pat, rep, 0, i);
    SubstituteLiteral(rep, pat, s[..i], s[i + |pat|..]);
  }

  /** In `m + pat + t` the first occurrence of `pat` lies within `m + pat`, so it is the same
      whatever `t` is. */
  lemma SameFirstOccurrence(m: string, pat: string, t1: string, t2: string)
    ensures IndexOf(m + pat + t1, pat, 0).Some?
    ensures IndexOf(m + pat + t1, pat, 0) == IndexOf(m + pat + t2, pat, 0)
    ensures IndexOf(m + pat + t1, pat, 0).value <= |m|
  {
    var p := m + pat;
    var s1, s2 := p + t1, p + t2;
    assert m + pat + t1 == s1 && m + pat + t2 == s2;
    assert Occurs(s1, pat, |m|) && Occurs(s2, pat, |m|) by {
      assert s1[|m|..|m| + |pat|] == pat == s2[|m|..|m| + |pat|];
    }
    var r1, r2 := IndexOf(s1, pat, 0), IndexOf(s2, pat, 0);
    assert r1.Some? && r1.value <= |m|;
    assert r2.Some? && r2.value <= |m|;
    SameOccurrenceWithin(p, pat, t1, t2, r1.value);
    SameOccurrenceWithin(p, pat, t1, t2, r2.value);
    assert r1.value == r2.value;
  }

  /** An occurrence that ends within `p` is one in `p + t1` exactly when it is one in `p + t2`. */
  lemma SameOccurrenceWithin(p: string, pat: string, t1: string, t2: string, j: nat)
    requires j + |pat| <= |p|
    ensures Occurs(p + t1, pat, j) <==> Occurs(p + t2, pat, j)
  {
    assert (p + t1)[j..j + |pat|] == p[j..j + |pat|] == (p + t2)[j..j + |pat|];
  }

  /** Text after the first occurrence of `pat` passes through `Replace` untouched when the
      replacement is literal. */
  lemma ReplaceKeepsTail(x: string, pat: string, rep: string, t: string)
    requires '$' !in rep
    ensures Replace(x + pat + t, pat, rep) == Replace(x + pat, pat, rep) + t
  {
    var s, p := x + pat + t, x + pat;
    SameFirstOccurrence(x, pat, t, []);
    assert x + pat + [] == p;
    var i := IndexOf(s, pat, 0).value;
    ReplaceFromFound(s, pat, rep, 0, i);
    ReplaceFromFound(p, pat, rep, 0, i);
    assert s[..i] == p[..i];
    assert s[i + |pat|..] == p[i + |pat|..] + t;
    SubstituteLiteral(rep, pat, s[..i], s[i + |pat|..]);
    SubstituteLiteral(rep, pat, p[..i], p[i + |pat|..]);
  }

  /** Whatever precedes it, the text after an occurrence of `pat` is recovered from the
      result of `Replace`: two strings that differ only after a marker `pat` stay different,
      even when the replacement copies that text with `$'`. */
  lemma ReplaceInjectiveAfterMarker(m: string, pat: string, rep: string, t1: string, t2: string)
    requires Replace(m + pat + t1, pat, rep) == Replace(m + pat + t2, pat, rep)
    ensures t1 == t2
  {
    var p := m + pat;
    var s1, s2 := m + pat + t1, m + pat + t2;
    SameFirstOccurrence(m, pat, t1, t2);
    var i := IndexOf(s1, pat, 0).value;
    ReplaceFromFound(s1, pat, rep, 0, i);
    ReplaceFromFound(s2, pat, rep, 0, i);
    var before := p[..i];
    var c := p[i + |pat|..];
    assert s1[..i] == before && s2[..i] == before;
    var a1, a2 := s1[i + |pat|..], s2[i + |pat|..];
    assert a1 == c + t1 && a2 == c + t2;
    var e1, e2 := Substitute(rep, pat, before, a1), Substitute(rep, pat, before, a2);
    assert Replace(s1, pat, rep) == before + e1 + a1;
    assert Replace(s2, pat, rep) == before + e2 + a2;
    if |t1| <= |t2| {
      SubstituteLengthMonotone(rep, pat, before, a1, a2);
    }
    if |t2| <= |t1| {
      SubstituteLengthMonotone(rep, pat, before, a2, a1);
    }
    assert |t1| == |t2|;
    assert a1 == (before + e1 + a1)[|before| + |e1|..];
    assert a2 == (before + e2 + a2)[|before| + |e2|..];
    assert t1 == a1[|c|..] && t2 == a2[|c|..];
  }
}
