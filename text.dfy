/**
 * The JavaScript string builtins the member parser relies on: white space as `\s` and
 * `String.prototype.trim` see it, `toLowerCase` (on ASCII letters), the `/\s+/g -> ' '`
 * replacement, `includes`, `startsWith`, `split` on one character and `join`.
 */
module Text {

  /** ECMAScript WhiteSpace and LineTerminator code points: the `\s` class and what `trim` removes. */
  predicate IsWs(c: char) {
    || c == ' ' || c == '\t' || c == '\n' || c == '\U{B}' || c == '\U{C}' || c == '\r'
    || c == '\U{A0}' || c == '\U{1680}' || ('\U{2000}' <= c <= '\U{200A}')
    || c == '\U{2028}' || c == '\U{2029}' || c == '\U{202F}' || c == '\U{205F}'
    || c == '\U{3000}' || c == '\U{FEFF}'
  }

  /** An ASCII upper-case letter. */
  predicate IsUpper(c: char) {
    'A' <= c <= 'Z'
  }

  /** No ASCII upper-case letter occurs in `s`. */
  predicate NoUpper(s: string) {
    forall i :: 0 <= i < |s| ==> !IsUpper(s[i])
  }

  function LowerChar(c: char): char {
    if IsUpper(c) then (c as int + 32) as char else c
  }

  /**
   * `toLowerCase` on ASCII letters: each upper-case letter becomes its lower-case letter, no
   * upper-case letter is left, and every other character stays in place.
   */
  function ToLower(s: string): (r: string)
    ensures |r| == |s| && NoUpper(r)
    ensures forall i :: 0 <= i < |s| && IsUpper(s[i]) ==> r[i] == (s[i] as int + 32) as char
    ensures forall i :: 0 <= i < |s| && !IsUpper(s[i]) ==> r[i] == s[i]
    ensures forall i :: 0 <= i < |s| ==> IsWs(r[i]) == IsWs(s[i])
  {
    seq(|s|, i requires 0 <= i < |s| => LowerChar(s[i]))
  }

  /** Text without upper-case letters is its own lower-case form; so lower-casing twice is lower-casing once. */
  lemma ToLowerNoop(s: string)
    requires NoUpper(s)
    ensures ToLower(s) == s
  {
  }

  lemma ToLowerIdempotent(s: string)
    ensures ToLower(ToLower(s)) == ToLower(s)
  {
    ToLowerNoop(ToLower(s));
  }

  /** Lower-casing keeps text free of white space at its ends. */
  lemma ToLowerTrimmed(s: string)
    requires Trimmed(s)
    ensures Trimmed(ToLower(s))
  {
  }

  /** Every character of `s` is white space (so is the empty text). */
  predicate Blank(s: string) {
    forall i :: 0 <= i < |s| ==> IsWs(s[i])
  }

  /** No character of `s` is white space. */
  predicate NoWs(s: string) {
    forall i :: 0 <= i < |s| ==> !IsWs(s[i])
  }

  /** No white space at either end. */
  predicate Trimmed(s: string) {
    s == [] || (!IsWs(s[0]) && !IsWs(s[|s| - 1]))
  }

  /** The characters of `s` that are not white space, in order. */
  function NonWs(s: string): string {
    if s == [] then [] else (if IsWs(s[0]) then [] else [s[0]]) + NonWs(s[1..])
  }

  /** The first position at or after `k` that does not hold white space, or `|s|`. */
  function SkipWs(s: string, k: nat): (n: nat)
    requires k <= |s|
    ensures k <= n <= |s|
    ensures forall i :: k <= i < n ==> IsWs(s[i])
    ensures n < |s| ==> !IsWs(s[n])
    decreases |s| - k
  {
    if k < |s| && IsWs(s[k]) then SkipWs(s, k + 1) else k
  }

  /** The position just after the last character before `k` that is not white space, or 0. */
  function SkipWsBack(s: string, k: nat): (n: nat)
    requires k <= |s|
    ensures n <= k
    ensures forall i :: n <= i < k ==> IsWs(s[i])
    ensures n > 0 ==> !IsWs(s[n - 1])
  {
    if k > 0 && IsWs(s[k - 1]) then SkipWsBack(s, k - 1) else k
  }

  /** Dropping leading white space keeps the other characters. */
  lemma {:induction false} NonWsAfterWs(s: string, n: nat)
    requires n <= |s|
    requires forall i :: 0 <= i < n ==> IsWs(s[i])
    ensures NonWs(s[n..]) == NonWs(s)
    decreases n
  {
    if n > 0 {
      assert s[1..][n - 1..] == s[n..];
      NonWsAfterWs(s[1..], n - 1);
    }
  }

  /** `s` without its leading white space. */
  function TrimStart(s: string): (r: string)
    ensures |r| <= |s|
    ensures r == [] || !IsWs(r[0])
    ensures NonWs(r) == NonWs(s)
  {
    var n := SkipWs(s, 0);
    NonWsAfterWs(s, n);
    s[n..]
  }

  /** `String.prototype.trim`: the slice of `s` between its leading and its trailing white space. */
  function Trim(s: string): (r: string)
    ensures var a := SkipWs(s, 0); a + |r| <= |s| && r == s[a..a + |r|]
    ensures Trimmed(r)
  {
    var a := SkipWs(s, 0);
    var b := SkipWsBack(s, |s|);
    if b <= a then [] else s[a..b]
  }

  /** Trimming removes white space only: everything outside the result is white space. */
  lemma TrimDropsOnlyWs(s: string)
    ensures var a := SkipWs(s, 0);
      forall i :: 0 <= i < |s| && (i < a || i >= a + |Trim(s)|) ==> IsWs(s[i])
  {
    var a, b := SkipWs(s, 0), SkipWsBack(s, |s|);
    if b <= a {
      forall i | a <= i < |s|
        ensures IsWs(s[i])
      {
        assert b <= i;
      }
    }
  }

  /** Trimming leaves nothing exactly when the text is all white space. */
  lemma TrimBlank(s: string)
    ensures (Trim(s) == []) == Blank(s)
  {
    TrimDropsOnlyWs(s);
  }

  /** Text with no white space at either end is its own trim. */
  lemma TrimNoop(s: string)
    requires Trimmed(s)
    ensures Trim(s) == s
  {
  }

  /** Every white-space character is a plain space. */
  predicate SpacesOnly(s: string) {
    forall i :: 0 <= i < |s| && IsWs(s[i]) ==> s[i] == ' '
  }

  /** No two white-space characters are adjacent. */
  predicate NoDoubleWs(s: string) {
    forall i :: 0 <= i < |s| - 1 && IsWs(s[i]) ==> !IsWs(s[i + 1])
  }

  /** What `.replace(/\s+/g, ' ').trim()` leaves: single spaces between words, none at the ends. */
  predicate Collapsed(s: string) {
    && SpacesOnly(s)
    && NoDoubleWs(s)
    && Trimmed(s)
  }

  /** The words of `s`: its maximal runs of characters that are not white space, in order. */
  function Words(s: string): (ws: seq<string>)
    ensures forall k :: 0 <= k < |ws| ==> ws[k] != [] && NoWs(ws[k])
    ensures s != [] && !IsWs(s[0]) ==> ws != [] && ws[0][0] == s[0]
    decreases |s|
  {
    if s == [] then []
    else if IsWs(s[0]) then Words(s[1..])
    else
      var rest := Words(s[1..]);
      if |s| > 1 && !IsWs(s[1]) then [[s[0]] + rest[0]] + rest[1..] else [[s[0]]] + rest
  }

  /** The words of a character followed by `t`, read off the words of `t`. */
  lemma WordsCons(c: char, t: string)
    ensures Words([c] + t) ==
      if IsWs(c) then Words(t)
      else if t != [] && !IsWs(t[0]) then [[c] + Words(t)[0]] + Words(t)[1..]
      else [[c]] + Words(t)
  {
    assert ([c] + t)[0] == c && ([c] + t)[1..] == t;
  }

  /** Leading white space carries no words. */
  lemma {:induction false} WordsDropLeading(s: string, n: nat)
    requires n <= |s| && Blank(s[..n])
    ensures Words(s[n..]) == Words(s)
    decreases n
  {
    if n > 0 {
      assert s[0] == s[..n][0];
      assert s[1..][n - 1..] == s[n..];
      assert s[1..][..n - 1] == s[..n][1..];
      WordsDropLeading(s[1..], n - 1);
    }
  }

  /** Trailing white space carries no words. */
  lemma {:induction false} WordsDropTrailing(s: string, m: nat)
    requires m <= |s| && Blank(s[m..])
    ensures Words(s[..m]) == Words(s)
    decreases |s|
  {
    if s != [] {
      if m == 0 {
        WordsDropLeading(s, |s|);
        assert s[|s|..] == [] == s[..0];
      } else {
        assert s[1..][m - 1..] == s[m..];
        WordsDropTrailing(s[1..], m - 1);
        assert s[..m] == [s[0]] + s[1..][..m - 1];
        assert s == [s[0]] + s[1..];
        WordsCons(s[0], s[1..][..m - 1]);
        WordsCons(s[0], s[1..]);
      }
    }
  }

  /** Text has no words exactly when it is all white space. */
  lemma {:induction false} WordsBlank(s: string)
    ensures (Words(s) == []) == Blank(s)
    decreases |s|
  {
    if s != [] {
      WordsBlank(s[1..]);
      assert s == [s[0]] + s[1..];
      WordsCons(s[0], s[1..]);
    }
  }

  /** Trimming keeps the words. */
  lemma WordsTrim(s: string)
    ensures Words(Trim(s)) == Words(s)
  {
    var a, t := SkipWs(s, 0), Trim(s);
    TrimDropsOnlyWs(s);
    WordsDropLeading(s, a);
    assert s[a..][..|t|] == t;
    WordsDropTrailing(s[a..], |t|);
  }

  /** `.replace(/\s+/g, ' ')`: every maximal run of white space becomes one space. */
  function CollapseWs(s: string): (r: string)
    ensures SpacesOnly(r) && NoDoubleWs(r)
    ensures Words(r) == Words(s)
    ensures NonWs(r) == NonWs(s)
    ensures (r == []) == (s == [])
    ensures s != [] ==> r[0] == if IsWs(s[0]) then ' ' else s[0]
    decreases |s|
  {
    if s == [] then []
    else
      assert s == [s[0]] + s[1..];
      WordsCons(s[0], s[1..]);
      if IsWs(s[0]) then
        WordsDropLeading(s[1..], SkipWs(s[1..], 0));
        var rest := CollapseWs(TrimStart(s[1..]));
        ConsKeepsSpacing(' ', rest);
        WordsCons(' ', rest);
        " " + rest
      else
        var rest := CollapseWs(s[1..]);
        ConsKeepsSpacing(s[0], rest);
        WordsCons(s[0], rest);
        [s[0]] + rest
  }

  /** One step of the collapse: a leading white-space run becomes one space. */
  lemma CollapseWsStep(s: string)
    requires s != []
    ensures CollapseWs(s) == if IsWs(s[0]) then " " + CollapseWs(TrimStart(s[1..])) else [s[0]] + CollapseWs(s[1..])
  {
  }

  /** A trailing white-space run becomes one trailing space: the result ends in white space exactly when `s` does. */
  lemma {:induction false} CollapseWsLast(s: string)
    requires s != []
    ensures var r := CollapseWs(s); IsWs(r[|r| - 1]) == IsWs(s[|s| - 1])
    decreases |s|, 1
  {
    if IsWs(s[0]) {
      CollapseWsLastRun(s);
    } else {
      CollapseWsLastWord(s);
    }
  }

  /** `CollapseWsLast` when `s` starts with white space. */
  lemma {:induction false} CollapseWsLastRun(s: string)
    requires s != [] && IsWs(s[0])
    ensures var r := CollapseWs(s); IsWs(r[|r| - 1]) == IsWs(s[|s| - 1])
    decreases |s|, 0
  {
    var t := s[1..];
    var u := TrimStart(t);
    CollapseWsStep(s);
    assert u == t[SkipWs(t, 0)..];
    if u == [] {
      if t != [] {
        assert s[|s| - 1] == t[|t| - 1];
      }
    } else {
      CollapseWsLast(u);
      assert u[|u| - 1] == s[|s| - 1];
    }
  }

  /** `CollapseWsLast` when `s` starts with a non-white-space character. */
  lemma {:induction false} CollapseWsLastWord(s: string)
    requires s != [] && !IsWs(s[0])
    ensures var r := CollapseWs(s); IsWs(r[|r| - 1]) == IsWs(s[|s| - 1])
    decreases |s|, 0
  {
    var t := s[1..];
    CollapseWsStep(s);
    if t != [] {
      CollapseWsLast(t);
      assert t[|t| - 1] == s[|s| - 1];
    }
  }

  lemma ConsKeepsSpacing(c: char, r: string)
    requires SpacesOnly(r) && NoDoubleWs(r)
    requires IsWs(c) ==> c == ' ' && (r == [] || !IsWs(r[0]))
    ensures SpacesOnly([c] + r) && NoDoubleWs([c] + r)
    ensures NonWs([c] + r) == (if IsWs(c) then [] else [c]) + NonWs(r)
  {
    assert ([c] + r)[1..] == r;
    forall i | 1 <= i < |r| + 1
      ensures ([c] + r)[i] == r[i - 1]
    {
    }
  }

  lemma SliceKeepsSpacing(s: string, a: nat, b: nat)
    requires a <= b <= |s|
    requires SpacesOnly(s) && NoDoubleWs(s)
    ensures SpacesOnly(s[a..b]) && NoDoubleWs(s[a..b])
  {
    forall i | 0 <= i < b - a - 1 && IsWs(s[a..b][i])
      ensures !IsWs(s[a..b][i + 1])
    {
      assert s[a..b][i] == s[a + i] && s[a..b][i + 1] == s[a + i + 1];
    }
  }

  /** Collapsing white space and then trimming gives a collapsed string with the same words. */
  lemma {:induction false} TrimCollapseWs(s: string)
    ensures Collapsed(Trim(CollapseWs(s)))
  {
    var c := CollapseWs(s);
    var a := SkipWs(c, 0);
    SliceKeepsSpacing(c, a, a + |Trim(c)|);
  }

  /** `.replace(/\s+/g, ' ').trim()`: the words of `s` joined by single spaces; empty exactly for blank text. */
  function Squish(s: string): (r: string)
    ensures Collapsed(r)
    ensures r == Join(Words(s), ' ')
    ensures (r == []) == Blank(s)
  {
    var r := Trim(CollapseWs(s));
    TrimCollapseWs(s);
    WordsTrim(CollapseWs(s));
    CollapsedIsJoin(r);
    JoinEmpty(Words(s), ' ');
    WordsBlank(s);
    r
  }

  /** Collapsed text is its words joined by single spaces. */
  lemma {:induction false} CollapsedIsJoin(r: string)
    requires Collapsed(r)
    ensures r == Join(Words(r), ' ')
    decreases |r|, 1
  {
    if |r| == 1 {
      assert r == [r[0]] + r[1..];
      WordsCons(r[0], r[1..]);
      assert Words(r[1..]) == [];
    } else if |r| > 1 {
      if IsWs(r[1]) {
        CollapsedIsJoinSpace(r);
      } else {
        CollapsedIsJoinWord(r);
      }
    }
  }

  /** `CollapsedIsJoin` when the first word goes on past its first character. */
  lemma {:induction false} CollapsedIsJoinWord(r: string)
    requires Collapsed(r) && |r| > 1 && !IsWs(r[1])
    ensures r == Join(Words(r), ' ')
    decreases |r|, 0
  {
    var t := r[1..];
    assert r == [r[0]] + t;
    WordsCons(r[0], t);
    SliceKeepsSpacing(r, 1, |r|);
    CollapsedIsJoin(t);
    JoinGlue(r[0], Words(t), ' ');
  }

  /** `CollapsedIsJoin` when a one-character word is followed by a space. */
  lemma {:induction false} CollapsedIsJoinSpace(r: string)
    requires Collapsed(r) && |r| > 1 && IsWs(r[1])
    ensures r == Join(Words(r), ' ')
    decreases |r|, 0
  {
    var t := r[1..];
    var u := r[2..];
    assert r == [r[0]] + t;
    WordsCons(r[0], t);
    assert t == [r[1]] + u;
    WordsCons(r[1], u);
    SliceKeepsSpacing(r, 2, |r|);
    CollapsedIsJoin(u);
    var ws := [[r[0]]] + Words(u);
    assert ws[0] == [r[0]] && ws[1..] == Words(u);
  }

  /** Gluing a character in front of the first part glues it in front of the join. */
  lemma JoinGlue(c: char, parts: seq<string>, sep: char)
    requires |parts| >= 1
    ensures Join([[c] + parts[0]] + parts[1..], sep) == [c] + Join(parts, sep)
  {
    var glued := [[c] + parts[0]] + parts[1..];
    assert glued[0] == [c] + parts[0] && glued[1..] == parts[1..];
  }

  /** A join of non-empty parts is empty only when there are no parts. */
  lemma JoinEmpty(parts: seq<string>, sep: char)
    requires forall k :: 0 <= k < |parts| ==> parts[k] != []
    ensures (Join(parts, sep) == []) == (parts == [])
  {
  }

  /** Collapsing and trimming leave already collapsed text unchanged. */
  lemma {:induction false} CollapseWsFixpoint(s: string)
    requires SpacesOnly(s) && NoDoubleWs(s)
    ensures CollapseWs(s) == s
    decreases |s|
  {
    if s != [] {
      SliceKeepsSpacing(s, 1, |s|);
      CollapseWsFixpoint(s[1..]);
      if IsWs(s[0]) {
        assert s[1..] == [] || !IsWs(s[1..][0]);
        assert TrimStart(s[1..]) == s[1..];
        assert s == " " + s[1..];
      } else {
        assert s == [s[0]] + s[1..];
      }
    }
  }

  /** One word, or two words joined by a single space, is collapsed text. */
  lemma WordsCollapsed(a: string, b: string)
    requires a != [] && forall i :: 0 <= i < |a| ==> !IsWs(a[i])
    requires forall i :: 0 <= i < |b| ==> !IsWs(b[i])
    ensures Collapsed(if b == [] then a else a + " " + b)
  {
    var s := if b == [] then a else a + " " + b;
    forall i | 0 <= i < |s|
      ensures IsWs(s[i]) ==> i == |a| && s[i] == ' '
    {
      if i < |a| {
        assert s[i] == a[i];
      } else if i > |a| {
        assert s[i] == b[i - |a| - 1];
      }
    }
  }

  lemma CollapsedFixpoint(s: string)
    requires Collapsed(s)
    ensures Trim(CollapseWs(s)) == s
  {
    CollapseWsFixpoint(s);
  }

  /** `s.replace(/x/g, y)` for one character `x`. */
  function ReplaceChar(s: string, x: char, y: char): (r: string)
    ensures |r| == |s|
    ensures x != y ==> x !in r
    ensures forall i :: 0 <= i < |s| && s[i] == x ==> r[i] == y
    ensures forall i :: 0 <= i < |s| && s[i] != x ==> r[i] == s[i]
  {
    seq(|s|, i requires 0 <= i < |s| => if s[i] == x then y else s[i])
  }

  /** Replacing one white-space character by another keeps the words. */
  lemma {:induction false} WordsReplaceWs(s: string, x: char, y: char)
    requires IsWs(x) && IsWs(y)
    ensures Words(ReplaceChar(s, x, y)) == Words(s)
    decreases |s|
  {
    if s != [] {
      var r, rest := ReplaceChar(s, x, y), ReplaceChar(s[1..], x, y);
      assert r == [r[0]] + rest;
      assert s == [s[0]] + s[1..];
      WordsReplaceWs(s[1..], x, y);
      WordsCons(r[0], rest);
      WordsCons(s[0], s[1..]);
    }
  }

  /** `s.replace(/x/g, '')` for one character `x`. */
  function RemoveChar(s: string, x: char): (r: string)
    ensures x !in r && |r| <= |s|
  {
    if s == [] then []
    else (if s[0] == x then [] else [s[0]]) + RemoveChar(s[1..], x)
  }

  /** Text without `x` is left unchanged. */
  lemma {:induction false} RemoveCharAbsent(s: string, x: char)
    requires x !in s
    ensures RemoveChar(s, x) == s
    decreases |s|
  {
    if s != [] {
      RemoveCharAbsent(s[1..], x);
    }
  }

  /** Every character other than `x` occurs as often after the removal as before. */
  lemma {:induction false} RemoveCharCounts(s: string, x: char)
    ensures forall c :: c != x ==> multiset(RemoveChar(s, x))[c] == multiset(s)[c]
    decreases |s|
  {
    if s != [] {
      assert s == [s[0]] + s[1..];
      RemoveCharCounts(s[1..], x);
    }
  }

  /** Removal works piece by piece, so the remaining characters keep their order. */
  lemma {:induction false} RemoveCharAppend(a: string, b: string, x: char)
    ensures RemoveChar(a + b, x) == RemoveChar(a, x) + RemoveChar(b, x)
    decreases |a|
  {
    if a == [] {
      assert a + b == b;
    } else {
      var head, ra, rb := if a[0] == x then [] else [a[0]], RemoveChar(a[1..], x), RemoveChar(b, x);
      assert (a + b)[0] == a[0] && (a + b)[1..] == a[1..] + b;
      RemoveCharAppend(a[1..], b, x);
      assert RemoveChar(a + b, x) == head + (ra + rb);
      assert RemoveChar(a, x) == head + ra;
      assert head + (ra + rb) == (head + ra) + rb;
    }
  }

  /** `s.startsWith(p)`. */
  predicate StartsWith(s: string, p: string) {
    |p| <= |s| && s[..|p|] == p
  }

  /** `s.includes(p)`. */
  predicate Contains(s: string, p: string)
    decreases |s|
  {
    StartsWith(s, p) || (s != [] && Contains(s[1..], p))
  }

  /** `p` occurs in `s` at offset `i`. */
  predicate OccursAt(s: string, p: string, i: int) {
    0 <= i <= |s| - |p| && s[i..i + |p|] == p
  }

  /** `includes` finds `p` exactly when `p` occurs at some offset of `s`. */
  lemma {:induction false} ContainsAt(s: string, p: string)
    ensures Contains(s, p) <==> exists i :: OccursAt(s, p, i)
    decreases |s|
  {
    if StartsWith(s, p) {
      assert OccursAt(s, p, 0);
    } else if s != [] {
      ContainsAt(s[1..], p);
      if Contains(s[1..], p) {
        var i :| OccursAt(s[1..], p, i);
        assert s[1..][i..i + |p|] == s[i + 1..i + 1 + |p|];
        assert OccursAt(s, p, i + 1);
      }
      forall i | OccursAt(s, p, i)
        ensures Contains(s[1..], p)
      {
        assert i != 0;
        assert s[1..][i - 1..i - 1 + |p|] == s[i..i + |p|];
        assert OccursAt(s[1..], p, i - 1);
      }
    }
  }

  /** Every character of an occurring pattern is a character of the text. */
  lemma {:induction false} ContainsChars(s: string, p: string, c: char)
    requires Contains(s, p) && c in p
    ensures c in s
    decreases |s|
  {
    if StartsWith(s, p) {
      var j :| 0 <= j < |p| && p[j] == c;
      assert s[j] == c;
    } else {
      ContainsChars(s[1..], p, c);
    }
  }

  /** A pattern occurs only in a text at least as long, and in one exactly as long only as the whole text. */
  lemma {:induction false} ContainsLength(s: string, p: string)
    requires Contains(s, p)
    ensures |p| <= |s|
    ensures |p| == |s| ==> s == p
    decreases |s|
  {
    if !StartsWith(s, p) {
      ContainsLength(s[1..], p);
    }
  }

  /** If `p + q` occurs in `s`, so does `p`. */
  lemma {:induction false} ContainsPrefixOf(s: string, p: string, q: string)
    requires Contains(s, p + q)
    ensures Contains(s, p)
    decreases |s|
  {
    if StartsWith(s, p + q) {
      assert s[..|p|] == (p + q)[..|p|] == p;
    } else {
      ContainsPrefixOf(s[1..], p, q);
    }
  }

  /** Number of occurrences of character `x` in `s`. */
  function Count(s: string, x: char): nat {
    if s == [] then 0 else (if s[0] == x then 1 else 0) + Count(s[1..], x)
  }

  /** `s.split(sep)` for a one-character separator: always at least one part. */
  function SplitOn(s: string, sep: char): (parts: seq<string>)
    ensures |parts| == Count(s, sep) + 1
    ensures forall k :: 0 <= k < |parts| ==> sep !in parts[k]
    decreases |s|
  {
    if s == [] then [""]
    else
      var rest := SplitOn(s[1..], sep);
      if s[0] == sep then [""] + rest else [[s[0]] + rest[0]] + rest[1..]
  }

  /** `parts.join(sep)`. */
  function Join(parts: seq<string>, sep: char): string {
    if |parts| == 0 then ""
    else if |parts| == 1 then parts[0]
    else parts[0] + [sep] + Join(parts[1..], sep)
  }

  /** A character in no part, and not the separator, is not in the join. */
  lemma {:induction false} JoinFree(parts: seq<string>, sep: char, x: char)
    requires x != sep && forall k :: 0 <= k < |parts| ==> x !in parts[k]
    ensures x !in Join(parts, sep)
    decreases |parts|
  {
    if |parts| > 1 {
      JoinFree(parts[1..], sep, x);
    }
  }

  /** Joining the parts of a split restores the text. */
  lemma {:induction false} JoinSplitOn(s: string, sep: char)
    ensures Join(SplitOn(s, sep), sep) == s
    decreases |s|
  {
    if s != [] {
      var rest := SplitOn(s[1..], sep);
      JoinSplitOn(s[1..], sep);
      if s[0] == sep {
        assert ([""] + rest)[1..] == rest;
      } else if |rest| > 1 {
        assert ([[s[0]] + rest[0]] + rest[1..])[1..] == rest[1..];
      }
    }
  }

  /** Splitting a separator-free prefix glued to `t` extends the first part of `t`'s split. */
  lemma {:induction false} SplitOnPrefix(p: string, t: string, sep: char)
    requires sep !in p
    ensures SplitOn(p + t, sep) == [p + SplitOn(t, sep)[0]] + SplitOn(t, sep)[1..]
    decreases |p|
  {
    var parts := SplitOn(t, sep);
    if p == [] {
      assert p + t == t && p + parts[0] == parts[0];
      assert [parts[0]] + parts[1..] == parts;
    } else {
      assert (p + t)[0] == p[0] && (p + t)[1..] == p[1..] + t;
      SplitOnPrefix(p[1..], t, sep);
      assert [p[0]] + (p[1..] + parts[0]) == p + parts[0];
    }
  }

  /** Splitting a join of separator-free parts gives the parts back. */
  lemma {:induction false} SplitOnJoin(parts: seq<string>, sep: char)
    requires |parts| >= 1
    requires forall k :: 0 <= k < |parts| ==> sep !in parts[k]
    ensures SplitOn(Join(parts, sep), sep) == parts
    decreases |parts|
  {
    if |parts| == 1 {
      SplitOnPrefix(parts[0], "", sep);
      assert parts[0] + "" == parts[0];
    } else {
      var tail := Join(parts[1..], sep);
      SplitOnJoin(parts[1..], sep);
      assert parts[0] + [sep] + tail == parts[0] + ([sep] + tail);
      SplitOnPrefix(parts[0], [sep] + tail, sep);
      assert ([sep] + tail)[0] == sep && ([sep] + tail)[1..] == tail;
      assert SplitOn([sep] + tail, sep) == [""] + parts[1..];
      assert parts[0] + "" == parts[0];
      assert [parts[0]] + parts[1..] == parts;
    }
  }
}
