/**
 The ECMAScript string operations the itinerary page relies on, for string
 (not regular-expression) patterns: `indexOf`, `split` and `replace`.
 Strings are sequences of characters, one `char` per Unicode scalar value;
 UTF-16 code-unit indices and lone surrogates are not modelled.
 */
module JsString {

  datatype Option<T> = None | Some(value: T)

  /** `pat` occurs in `s` starting at index `i`. */
  predicate OccursAt(s: string, pat: string, i: int)
  {
    0 <= i && i + |pat| <= |s| && s[i..i + |pat|] == pat
  }

  predicate Contains(s: string, pat: string)
  {
    exists i :: 0 <= i <= |s| && OccursAt(s, pat, i)
  }

  /** `i` is the leftmost occurrence of `pat` in `s` at or after `from`. */
  predicate FirstFrom(s: string, pat: string, from: int, i: int)
  {
    from <= i && OccursAt(s, pat, i) && forall j :: from <= j < i ==> !OccursAt(s, pat, j)
  }

  /** StringIndexOf(s, pat, from) of ECMA-262 (section 6.1.4.1), with -1 written None.
      An empty `pat` is found at `from` itself. */
  function IndexOf(s: string, pat: string, from: nat): (r: Option<nat>)
    ensures r.Some? ==> FirstFrom(s, pat, from, r.value)
    ensures r.None? ==> forall j :: from <= j ==> !OccursAt(s, pat, j)
    decreases |s| - from
  {
    if from + |pat| > |s| then None
    else if OccursAt(s, pat, from) then Some(from)
    else IndexOf(s, pat, from + 1)
  }

  /** The parts joined back together, `sep` between neighbours (Array.prototype.join). */
  function Join(parts: seq<string>, sep: string): string
  {
    if |parts| == 0 then ""
    else if |parts| == 1 then parts[0]
    else parts[0] + sep + Join(parts[1..], sep)
  }

  /** The parts that `s.split(sep)` yields from index `i` on, for a non-empty
      string separator and no limit (String.prototype.split, section 22.1.3.23
      of ECMA-262): cut at each leftmost occurrence, resume after it. */
  function SplitFrom(s: string, sep: string, i: nat): (parts: seq<string>)
    requires |sep| > 0 && i <= |s|
    ensures |parts| >= 1
    decreases |s| - i
  {
    match IndexOf(s, sep, i)
    case None => [s[i..]]
    case Some(j) => [s[i..j]] + SplitFrom(s, sep, j + |sep|)
  }

  /** `s.split(sep)`: a single part, `s` itself, exactly when `sep` does not occur. */
  function Split(s: string, sep: string): (parts: seq<string>)
    requires |sep| > 0
    ensures |parts| >= 1
    ensures parts == [s] <==> !Contains(s, sep)
  {
    match IndexOf(s, sep, 0)
    case None =>
      assert s[0..] == s;
      SplitFrom(s, sep, 0)
    case Some(j) =>
      assert OccursAt(s, sep, j);
      SplitFrom(s, sep, 0)
  }

  /** Number of non-overlapping occurrences of `sep` in `s[i..]`, matched left to right. */
  function CountFrom(s: string, sep: string, i: nat): nat
    requires |sep| > 0 && i <= |s|
    decreases |s| - i
  {
    match IndexOf(s, sep, i)
    case None => 0
    case Some(j) => 1 + CountFrom(s, sep, j + |sep|)
  }

  /** The ECMAScript split algorithm as a loop: collect the text between
      consecutive leftmost occurrences of `sep`, then the remainder. */
  method SplitOn(s: string, sep: string) returns (parts: seq<string>)
    requires |sep| > 0
    ensures parts == Split(s, sep)
  {
    ghost var whole := SplitFrom(s, sep, 0);
    parts := [];
    var i: nat := 0;
    var j := IndexOf(s, sep, 0);
    while j.Some?
      invariant i <= |s|
      invariant j == IndexOf(s, sep, i)
      invariant parts + SplitFrom(s, sep, i) == whole
      decreases |s| - i
    {
      var cut := j.value;
      ghost var rest := SplitFrom(s, sep, cut + |sep|);
      assert SplitFrom(s, sep, i) == [s[i..cut]] + rest;
      assert parts + SplitFrom(s, sep, i) == (parts + [s[i..cut]]) + rest;
      parts := parts + [s[i..cut]];
      i := cut + |sep|;
      j := IndexOf(s, sep, i);
    }
    assert SplitFrom(s, sep, i) == [s[i..]];
    parts := parts + [s[i..]];
  }

  /** Split and join are inverse: joining the parts with `sep` gives back the text. */
  lemma {:induction false} SplitJoinFrom(s: string, sep: string, i: nat)
    requires |sep| > 0 && i <= |s|
    ensures Join(SplitFrom(s, sep, i), sep) == s[i..]
    decreases |s| - i
  {
    match IndexOf(s, sep, i)
    case None =>
    case Some(j) =>
      var rest := SplitFrom(s, sep, j + |sep|);
      SplitJoinFrom(s, sep, j + |sep|);
      assert SplitFrom(s, sep, i) == [s[i..j]] + rest;
      assert s[i..] == s[i..j] + sep + s[j + |sep|..];
  }

  /** An occurrence inside a slice is an occurrence in the whole text. */
  lemma OccursInSlice(s: string, pat: string, a: nat, b: nat, t: int)
    requires a <= b <= |s| && OccursAt(s[a..b], pat, t)
    ensures OccursAt(s, pat, a + t) && a + t + |pat| <= b
  {
    var whole, inner := s[a + t..a + t + |pat|], s[a..b][t..t + |pat|];
    assert forall k :: 0 <= k < |pat| ==> whole[k] == inner[k];
    assert whole == inner;
  }

  /** No part of a split contains the separator. */
  lemma {:induction false} SplitFromPartsFree(s: string, sep: string, i: nat)
    requires |sep| > 0 && i <= |s|
    ensures forall k :: 0 <= k < |SplitFrom(s, sep, i)| ==> !Contains(SplitFrom(s, sep, i)[k], sep)
    decreases |s| - i
  {
    match IndexOf(s, sep, i)
    case None =>
      assert s[i..] == s[i..|s|];
      if Contains(s[i..|s|], sep) {
        var t :| OccursAt(s[i..|s|], sep, t);
        OccursInSlice(s, sep, i, |s|, t);
        assert false;
      }
    case Some(j) =>
      SplitFromPartsFree(s, sep, j + |sep|);
      if Contains(s[i..j], sep) {
        var t :| OccursAt(s[i..j], sep, t);
        OccursInSlice(s, sep, i, j, t);
        assert false;
      }
  }

  /** A split has one part more than there are non-overlapping occurrences. */
  lemma {:induction false} SplitCountFrom(s: string, sep: string, i: nat)
    requires |sep| > 0 && i <= |s|
    ensures |SplitFrom(s, sep, i)| == CountFrom(s, sep, i) + 1
    decreases |s| - i
  {
    match IndexOf(s, sep, i)
    case None =>
    case Some(j) => SplitCountFrom(s, sep, j + |sep|);
  }

  /** No occurrence starts where the text holds no copy of the separator's
      first character. */
  lemma NoOccurrenceIn(s: string, sep: string, i: nat, n: nat)
    requires |sep| > 0 && i + n <= |s|
    requires forall j :: i <= j < i + n ==> s[j] != sep[0]
    ensures forall j :: i <= j < i + n ==> !OccursAt(s, sep, j)
  {
    forall j | i <= j < i + n ensures !OccursAt(s, sep, j) {
      if j + |sep| <= |s| {
        assert s[j..j + |sep|][0] == s[j];
      }
    }
  }

  /** `p` can stand between two separators without being cut inside: it does
      not contain `sep`, and either it lacks the separator's first character
      or that character does not recur in `sep`, so no occurrence can start
      in `p` and run into the following separator. */
  predicate Separable(p: string, sep: string)
  {
    |sep| > 0 && !Contains(p, sep) && (sep[0] !in p || sep[0] !in sep[1..])
  }

  /** Text without the separator's first character does not contain it. */
  lemma WithoutFirstChar(p: string, sep: string)
    requires |sep| > 0 && sep[0] !in p
    ensures !Contains(p, sep)
  {
    NoOccurrenceIn(p, sep, 0, |p|);
  }

  /** No occurrence starts inside a separable `p` followed by the separator. */
  lemma NoEarlyOccurrence(s: string, sep: string, i: nat, p: string, rest: string)
    requires i <= |s| && Separable(p, sep)
    requires s[i..] == p + sep + rest
    ensures forall j :: i <= j < i + |p| ==> !OccursAt(s, sep, j)
  {
    var whole := p + sep + rest;
    assert forall j :: i <= j < |s| ==> s[j] == whole[j - i];
    if sep[0] !in p {
      NoOccurrenceIn(s, sep, i, |p|);
    } else {
      forall j | i <= j < i + |p| ensures !OccursAt(s, sep, j) {
        var t := j - i;
        if j + |sep| > |s| {
        } else if t + |sep| <= |p| {
          assert s[j..j + |sep|] == p[t..t + |sep|];
          assert !OccursAt(p, sep, t);
        } else {
          var d := |p| - t;
          assert s[j..j + |sep|][d] == s[i + |p|] == whole[|p|] == sep[0];
          assert sep[d] == sep[1..][d - 1];
        }
      }
    }
  }

  /** The first cut of `p + sep + rest` (from `i`) is right after `p`. */
  lemma FirstCut(s: string, sep: string, i: nat, p: string, rest: string)
    requires i <= |s| && Separable(p, sep)
    requires s[i..] == p + sep + rest
    ensures IndexOf(s, sep, i) == Some(i + |p|)
    ensures s[i..i + |p|] == p && s[i + |p| + |sep|..] == rest
  {
    var whole := p + sep + rest;
    NoEarlyOccurrence(s, sep, i, p, rest);
    assert s[i + |p|..i + |p| + |sep|] == whole[|p|..|p| + |sep|];
    assert FirstFrom(s, sep, i, i + |p|);
    assert s[i..i + |p|] == whole[..|p|];
    assert s[i + |p| + |sep|..] == whole[|p| + |sep|..];
  }

  /** Text from `i` on that does not contain the separator is one part. */
  lemma LastPart(s: string, sep: string, i: nat)
    requires |sep| > 0 && i <= |s| && !Contains(s[i..], sep)
    ensures SplitFrom(s, sep, i) == [s[i..]]
  {
    match IndexOf(s, sep, i)
    case None =>
    case Some(j) =>
      assert s[i..][j - i..j - i + |sep|] == s[j..j + |sep|];
      assert OccursAt(s[i..], sep, j - i);
  }

  /** The other round trip, from index `i`: when the text from `i` on is
      parts joined with `sep`, each part separable, the split from `i` gives
      the parts back. */
  lemma {:induction false} JoinSplitFrom(s: string, sep: string, i: nat, parts: seq<string>)
    requires |sep| > 0 && i <= |s| && |parts| >= 1
    requires forall k :: 0 <= k < |parts| ==> Separable(parts[k], sep)
    requires s[i..] == Join(parts, sep)
    ensures SplitFrom(s, sep, i) == parts
    decreases |parts|
  {
    if |parts| == 1 {
      LastPart(s, sep, i);
    } else {
      var p, rest := parts[0], Join(parts[1..], sep);
      assert s[i..] == p + sep + rest;
      FirstCut(s, sep, i, p, rest);
      var next := i + |p| + |sep|;
      assert SplitFrom(s, sep, i) == [p] + SplitFrom(s, sep, next);
      JoinSplitFrom(s, sep, next, parts[1..]);
      assert parts == [p] + parts[1..];
    }
  }

  /** Joining separable parts and splitting again gives the parts back. */
  lemma JoinSplit(parts: seq<string>, sep: string)
    requires |sep| > 0 && |parts| >= 1
    requires forall k :: 0 <= k < |parts| ==> Separable(parts[k], sep)
    ensures Split(Join(parts, sep), sep) == parts
  {
    var s := Join(parts, sep);
    assert s[0..] == s;
    JoinSplitFrom(s, sep, 0, parts);
  }

  function Min(a: int, b: int): int { if a <= b then a else b }

  /** GetSubstitution of ECMA-262 (section 22.1.3.19.1) for a string pattern:
      there are no captures, so only `$$` (a dollar sign), `$&` (the match),
      `` $` `` (the text before the match) and `$'` (the text after it) are
      special; every other character, `$` included, stands for itself. */
  function Substitute(matched: string, s: string, position: nat, template: string): (r: string)
    requires position + |matched| <= |s|
    ensures '$' !in template ==> r == template
    ensures template == "$$" ==> r == "$"
    ensures template == "$&" ==> r == matched
    ensures template == "$`" ==> r == s[..position]
    ensures template == "$'" ==> r == s[position + |matched|..]
    decreases |template|
  {
    if |template| == 0 then ""
    else if template[0] == '$' && |template| >= 2 && template[1] in "$&`'" then
      var piece :=
        if template[1] == '$' then "$"
        else if template[1] == '&' then matched
        else if template[1] == '`' then s[..position]
        else s[Min(position + |matched|, |s|)..];
      piece + Substitute(matched, s, position, template[2..])
    else
      [template[0]] + Substitute(matched, s, position, template[1..])
  }

  /** `s.replace(pat, template)` for a string `pat` (String.prototype.replace,
      section 22.1.3.19 of ECMA-262): only the leftmost occurrence is replaced,
      the text around it is kept verbatim, an absent `pat` leaves `s` as it is,
      and an empty `pat` matches at index 0. */
  function ReplaceFirst(s: string, pat: string, template: string): (r: string)
    ensures !Contains(s, pat) ==> r == s
    ensures forall i :: FirstFrom(s, pat, 0, i) ==>
      r == s[..i] + Substitute(pat, s, i, template) + s[i + |pat|..]
    ensures |pat| == 0 ==> r == Substitute(pat, s, 0, template) + s
  {
    match IndexOf(s, pat, 0)
    case None => s
    case Some(i) =>
      assert forall k :: FirstFrom(s, pat, 0, k) ==> k == i;
      s[..i] + Substitute(pat, s, i, template) + s[i + |pat|..]
  }
}
