/**
 The boot.cfg rewrite of internal/boot/bootcfg.go. A file is a sequence of bytes, written here
 as characters; the four regular expressions are three literals and one literal followed by
 the rest of its line.
 */
module BootText {
  import opened Wrappers
  import opened Text

  predicate StartsWith(s: string, pat: string) {
    |pat| <= |s| && s[..|pat|] == pat
  }

  predicate Contains(s: string, pat: string) {
    StartsWith(s, pat) || (s != [] && Contains(s[1..], pat))
  }

  /** Where the first occurrence starts. */
  function Index(s: string, pat: string): (i: nat)
    requires Contains(s, pat)
    ensures i + |pat| <= |s| && s[i..i + |pat|] == pat
  {
    if StartsWith(s, pat) then 0 else 1 + Index(s[1..], pat)
  }

  /** ReplaceAllLiteral for a literal expression: leftmost matches, one pass, replacements are not looked at again. */
  function ReplaceAll(s: string, pat: string, sub: string): string
    requires pat != []
    decreases |s|
  {
    if StartsWith(s, pat) then sub + ReplaceAll(s[|pat|..], pat, sub)
    else if s == [] then []
    else [s[0]] + ReplaceAll(s[1..], pat, sub)
  }

  function Lines(s: string): (lines: seq<string>)
    ensures lines != [] && forall i :: 0 <= i < |lines| ==> '\n' !in lines[i]
    decreases |s|
  {
    var n := Until(s, '\n');
    if n == |s| then [s] else [s[..n]] + Lines(s[n + 1..])
  }

  function Join(lines: seq<string>): string
    requires lines != []
  {
    if |lines| == 1 then lines[0] else lines[0] + "\n" + Join(lines[1..])
  }

  /** A file is its lines: what is said of the lines below is said of the bytes. */
  lemma {:induction false} JoinLines(s: string)
    ensures Join(Lines(s)) == s
    decreases |s|
  {
    if Until(s, '\n') < |s| {
      var line, rest := FirstLine(s);
      JoinLines(rest);
      JoinFirst(line, Lines(rest));
    }
  }

  lemma FirstLine(s: string) returns (line: string, rest: string)
    requires Until(s, '\n') < |s|
    ensures s == line + "\n" + rest && |rest| < |s| && Lines(s) == [line] + Lines(rest)
  {
    var n := Until(s, '\n');
    line, rest := s[..n], s[n + 1..];
  }

  lemma JoinFirst(line: string, lines: seq<string>)
    requires lines != []
    ensures Join([line] + lines) == line + "\n" + Join(lines)
  {
    assert ([line] + lines)[1..] == lines;
  }

  lemma LinesOf(line: string, rest: string)
    requires '\n' !in line
    ensures Lines(line) == [line]
    ensures Lines(line + "\n" + rest) == [line] + Lines(rest)
  {
    UntilAt(line, '\n', rest);
    var s := line + "\n" + rest;
    assert s[..|line|] == line && s[|line| + 1..] == rest;
  }

  /** An occurrence of a pattern without a newline lies within one line. */
  lemma StartsWithinLine(line: string, rest: string, pat: string)
    requires '\n' !in pat
    ensures StartsWith(line + "\n" + rest, pat) == StartsWith(line, pat)
  {
    var s := line + "\n" + rest;
    assert s[|line|] == '\n';
    if |line| < |pat| <= |s| {
      assert s[..|pat|][|line|] == '\n';
    } else if |pat| <= |line| {
      assert s[..|pat|] == line[..|pat|];
    }
  }

  lemma ReplaceAllSkips(s: string, pat: string, sub: string)
    requires pat != [] && s != [] && !StartsWith(s, pat)
    ensures ReplaceAll(s, pat, sub) == [s[0]] + ReplaceAll(s[1..], pat, sub)
  {
  }

  lemma ReplaceAllTakes(s: string, pat: string, sub: string)
    requires pat != [] && StartsWith(s, pat)
    ensures ReplaceAll(s, pat, sub) == sub + ReplaceAll(s[|pat|..], pat, sub)
  {
  }

  lemma Reassociate(head: string, a: string, b: string)
    ensures head + (a + "\n" + b) == head + a + "\n" + b
  {
  }

  lemma {:induction false} ReplaceAllAcross(line: string, rest: string, pat: string, sub: string)
    requires pat != [] && '\n' !in pat && '\n' !in line
    ensures ReplaceAll(line + "\n" + rest, pat, sub) == ReplaceAll(line, pat, sub) + "\n" + ReplaceAll(rest, pat, sub)
    decreases |line|
  {
    var s := line + "\n" + rest;
    StartsWithinLine(line, rest, pat);
    if StartsWith(line, pat) {
      assert s[|pat|..] == line[|pat|..] + "\n" + rest;
      ReplaceAllTakes(s, pat, sub);
      ReplaceAllTakes(line, pat, sub);
      ReplaceAllAcross(line[|pat|..], rest, pat, sub);
      Reassociate(sub, ReplaceAll(line[|pat|..], pat, sub), ReplaceAll(rest, pat, sub));
    } else {
      ReplaceAllSkips(s, pat, sub);
      if line == [] {
        assert s[0] == '\n' && s[1..] == rest;
      } else {
        assert s[0] == line[0] && s[1..] == line[1..] + "\n" + rest;
        ReplaceAllSkips(line, pat, sub);
        ReplaceAllAcross(line[1..], rest, pat, sub);
        Reassociate([line[0]], ReplaceAll(line[1..], pat, sub), ReplaceAll(rest, pat, sub));
      }
    }
  }

  lemma {:induction false} ReplaceAllStaysOnLine(line: string, pat: string, sub: string)
    requires pat != [] && '\n' !in line && '\n' !in sub
    ensures '\n' !in ReplaceAll(line, pat, sub)
    decreases |line|
  {
    if StartsWith(line, pat) {
      ReplaceAllStaysOnLine(line[|pat|..], pat, sub);
    } else if line != [] {
      ReplaceAllStaysOnLine(line[1..], pat, sub);
    }
  }

  /** ReplaceAll on each line of its own. */
  function ReplaceEach(lines: seq<string>, pat: string, sub: string): (r: seq<string>)
    requires pat != []
    ensures |r| == |lines| && forall i :: 0 <= i < |lines| ==> r[i] == ReplaceAll(lines[i], pat, sub)
  {
    if lines == [] then [] else [ReplaceAll(lines[0], pat, sub)] + ReplaceEach(lines[1..], pat, sub)
  }

  /** Replacing a literal works line by line. */
  lemma {:induction false} ReplaceAllLines(s: string, pat: string, sub: string)
    requires pat != [] && '\n' !in pat && '\n' !in sub
    ensures Lines(ReplaceAll(s, pat, sub)) == ReplaceEach(Lines(s), pat, sub)
    decreases |s|
  {
    var n := Until(s, '\n');
    var line := s[..n];
    ReplaceAllStaysOnLine(line, pat, sub);
    if n == |s| {
      assert line == s;
      LinesOf(ReplaceAll(s, pat, sub), "");
    } else {
      var rest := s[n + 1..];
      assert s == line + "\n" + rest;
      ReplaceAllAcross(line, rest, pat, sub);
      ReplaceAllLines(rest, pat, sub);
      LinesOf(ReplaceAll(line, pat, sub), ReplaceAll(rest, pat, sub));
      assert Lines(s) == [line] + Lines(rest);
      assert Lines(s)[1..] == Lines(rest);
    }
  }

  lemma {:induction false} ReplaceAllAbsent(s: string, pat: string, sub: string)
    requires pat != [] && !Contains(s, pat)
    ensures ReplaceAll(s, pat, sub) == s
  {
    if s != [] {
      ReplaceAllAbsent(s[1..], pat, sub);
    }
  }

  // ---------- a marker and the rest of its line ----------

  /** The literal part of an expression `marker.*`. */
  type Marker = m: string | m != [] && '\n' !in m witness "="

  /** The first match of `marker.*`: from the marker to the end of its line. */
  function FindRest(s: string, marker: Marker): (r: Option<string>)
    ensures r.Some? ==> StartsWith(r.value, marker) && '\n' !in r.value
  {
    if StartsWith(s, marker) then Some(s[..Until(s, '\n')])
    else if s == [] then None
    else FindRest(s[1..], marker)
  }

  /** ReplaceAllLiteral for `marker.*`. */
  function ReplaceRest(s: string, sub: string, marker: Marker): string
    decreases |s|
  {
    if StartsWith(s, marker) then sub + ReplaceRest(s[Until(s, '\n')..], sub, marker)
    else if s == [] then []
    else [s[0]] + ReplaceRest(s[1..], sub, marker)
  }

  /** bootcfg.go's appendKernelOpt: every match becomes the first match with the text behind it. */
  function AppendRest(src: string, text: string, marker: Marker): string {
    match FindRest(src, marker)
    case None => src
    case Some(o) => ReplaceRest(src, o + text, marker)
  }

  /** What follows the marker of the first line that carries one, the marker included. */
  function FirstRest(lines: seq<string>, marker: Marker): Option<string> {
    if lines == [] then None
    else if Contains(lines[0], marker) then Some(lines[0][Index(lines[0], marker)..])
    else FirstRest(lines[1..], marker)
  }

  /** A line with a marker is its text before the marker, followed by `opt`. */
  function WithRest(line: string, opt: string, marker: Marker): string {
    if Contains(line, marker) then line[..Index(line, marker)] + opt else line
  }

  function EachWithRest(lines: seq<string>, opt: string, marker: Marker): (r: seq<string>)
    ensures |r| == |lines| && forall i :: 0 <= i < |lines| ==> r[i] == WithRest(lines[i], opt, marker)
  {
    if lines == [] then [] else [WithRest(lines[0], opt, marker)] + EachWithRest(lines[1..], opt, marker)
  }

  lemma {:induction false} FindOnLine(line: string, marker: Marker)
    requires '\n' !in line
    ensures FindRest(line, marker) == FirstRest([line], marker)
  {
    if StartsWith(line, marker) {
      UntilAt(line, '\n', "");
      assert line[..|line|] == line == line[0..];
    } else if line != [] {
      FindOnLine(line[1..], marker);
      if Contains(line[1..], marker) {
        assert line[1..][Index(line[1..], marker)..] == line[Index(line, marker)..];
      }
    }
  }

  lemma {:induction false} FindAcross(line: string, rest: string, marker: Marker)
    requires '\n' !in line
    ensures FindRest(line + "\n" + rest, marker) ==
            if FindRest(line, marker).Some? then FindRest(line, marker) else FindRest(rest, marker)
  {
    var s := line + "\n" + rest;
    StartsWithinLine(line, rest, marker);
    if StartsWith(line, marker) {
      UntilAt(line, '\n', rest);
      assert s[..|line|] == line == line[..|line|];
    } else if line == [] {
      assert s[0] == '\n' && s[1..] == rest;
    } else {
      assert s[1..] == line[1..] + "\n" + rest;
      FindAcross(line[1..], rest, marker);
    }
  }

  lemma {:induction false} FindIsFirst(s: string, marker: Marker)
    ensures FindRest(s, marker) == FirstRest(Lines(s), marker)
    decreases |s|
  {
    var n := Until(s, '\n');
    var line := s[..n];
    FindOnLine(line, marker);
    if n == |s| {
      assert line == s;
    } else {
      var rest := s[n + 1..];
      assert s == line + "\n" + rest;
      FindAcross(line, rest, marker);
      FindIsFirst(rest, marker);
      assert Lines(s)[1..] == Lines(rest);
    }
  }

  lemma {:induction false} ReplaceOnLine(line: string, opt: string, marker: Marker)
    requires '\n' !in line
    ensures ReplaceRest(line, opt, marker) == WithRest(line, opt, marker)
  {
    if StartsWith(line, marker) {
      UntilAt(line, '\n', "");
      assert line[|line|..] == [];
      assert ReplaceRest(line, opt, marker) == opt + ReplaceRest([], opt, marker) == opt;
      assert WithRest(line, opt, marker) == line[..0] + opt == opt;
    } else if line != [] {
      ReplaceOnLine(line[1..], opt, marker);
      WithRestAfter(line, opt, marker);
    }
  }

  lemma WithRestAfter(line: string, opt: string, marker: Marker)
    requires line != [] && !StartsWith(line, marker)
    ensures WithRest(line, opt, marker) == [line[0]] + WithRest(line[1..], opt, marker)
  {
    if Contains(line[1..], marker) {
      var before := line[1..][..Index(line[1..], marker)];
      assert [line[0]] + before == line[..Index(line, marker)];
      assert [line[0]] + (before + opt) == [line[0]] + before + opt;
    }
  }

  /** A line that starts with the marker is replaced to its end. */
  lemma ReplaceFromStart(line: string, rest: string, opt: string, marker: Marker)
    requires '\n' !in line && StartsWith(line, marker)
    ensures ReplaceRest(line + "\n" + rest, opt, marker) == opt + "\n" + ReplaceRest(rest, opt, marker)
    ensures ReplaceRest(line, opt, marker) == opt
  {
    var s := line + "\n" + rest;
    StartsWithinLine(line, rest, marker);
    UntilAt(line, '\n', rest);
    assert s[|line|..] == "\n" + rest && s[|line|..][1..] == rest;
    assert ReplaceRest(s[|line|..], opt, marker) == ['\n'] + ReplaceRest(rest, opt, marker);
    assert line[|line|..] == [];
    assert opt + (['\n'] + ReplaceRest(rest, opt, marker)) == opt + "\n" + ReplaceRest(rest, opt, marker);
  }

  lemma ReplaceSkips(s: string, opt: string, marker: Marker)
    requires s != [] && !StartsWith(s, marker)
    ensures ReplaceRest(s, opt, marker) == [s[0]] + ReplaceRest(s[1..], opt, marker)
  {
  }

  lemma {:induction false} ReplaceAcross(line: string, rest: string, opt: string, marker: Marker)
    requires '\n' !in line
    ensures ReplaceRest(line + "\n" + rest, opt, marker) ==
            ReplaceRest(line, opt, marker) + "\n" + ReplaceRest(rest, opt, marker)
  {
    var s := line + "\n" + rest;
    StartsWithinLine(line, rest, marker);
    if StartsWith(line, marker) {
      ReplaceFromStart(line, rest, opt, marker);
    } else {
      ReplaceSkips(s, opt, marker);
      if line == [] {
        assert s[0] == '\n' && s[1..] == rest;
      } else {
        assert s[0] == line[0] && s[1..] == line[1..] + "\n" + rest;
        ReplaceSkips(line, opt, marker);
        ReplaceAcross(line[1..], rest, opt, marker);
        Reassociate([line[0]], ReplaceRest(line[1..], opt, marker), ReplaceRest(rest, opt, marker));
      }
    }
  }

  lemma {:induction false} ReplaceLines(s: string, opt: string, marker: Marker)
    requires '\n' !in opt
    ensures Lines(ReplaceRest(s, opt, marker)) == EachWithRest(Lines(s), opt, marker)
    decreases |s|
  {
    var n := Until(s, '\n');
    var line := s[..n];
    ReplaceOnLine(line, opt, marker);
    if n == |s| {
      assert line == s;
      LinesOf(WithRest(s, opt, marker), "");
    } else {
      var rest := s[n + 1..];
      assert s == line + "\n" + rest;
      ReplaceAcross(line, rest, opt, marker);
      ReplaceLines(rest, opt, marker);
      LinesOf(WithRest(line, opt, marker), ReplaceRest(rest, opt, marker));
      assert Lines(s) == [line] + Lines(rest);
      assert Lines(s)[1..] == Lines(rest);
    }
  }

  // ---------- several appends make one ----------

  /** AppendRest on lines: every marked line gets the first one's text and the new text after it. */
  function Appended(lines: seq<string>, text: string, marker: Marker): seq<string> {
    match FirstRest(lines, marker)
    case None => lines
    case Some(o) => EachWithRest(lines, o + text, marker)
  }

  lemma AppendLines(s: string, text: string, marker: Marker)
    requires '\n' !in text
    ensures Lines(AppendRest(s, text, marker)) == Appended(Lines(s), text, marker)
  {
    FindIsFirst(s, marker);
    if FindRest(s, marker).Some? {
      ReplaceLines(s, FindRest(s, marker).value + text, marker);
    }
  }

  lemma SharedStart(line: string, opt: string, marker: Marker, i: nat)
    requires OccursAt(line, marker, i) && StartsWith(opt, marker)
    ensures i + |marker| <= |line[..i] + opt| && (line[..i] + opt)[..i + |marker|] == line[..i + |marker|]
  {
    assert line[..i + |marker|] == line[..i] + line[i..i + |marker|];
    assert (line[..i] + opt)[..i + |marker|] == line[..i] + opt[..|marker|];
  }

  lemma {:induction false} WithRestTwice(line: string, opt: string, opt': string, marker: Marker)
    requires StartsWith(opt, marker)
    ensures WithRest(WithRest(line, opt, marker), opt', marker) == WithRest(line, opt', marker)
    ensures Contains(WithRest(line, opt, marker), marker) == Contains(line, marker)
    ensures Contains(line, marker) ==> Index(WithRest(line, opt, marker), marker) == Index(line, marker)
  {
    if Contains(line, marker) {
      var i := Index(line, marker);
      var line' := WithRest(line, opt, marker);
      SharedStart(line, opt, marker, i);
      SameIndex(line, line', marker, i);
    }
  }

  predicate OccursAt(s: string, pat: string, i: nat) {
    i + |pat| <= |s| && s[i..i + |pat|] == pat
  }

  lemma OccursLater(s: string, pat: string, i: nat)
    requires s != []
    ensures OccursAt(s[1..], pat, i) <==> OccursAt(s, pat, i + 1)
    ensures OccursAt(s, pat, 0) <==> StartsWith(s, pat)
  {
    assert i + 1 + |pat| <= |s| ==> s[1..][i..i + |pat|] == s[i + 1..i + 1 + |pat|];
    assert |pat| <= |s| ==> s[0..|pat|] == s[..|pat|];
  }

  /** No occurrence starts before the first one. */
  lemma {:induction false} IndexIsFirst(s: string, pat: string, i: nat)
    requires Contains(s, pat) && i < Index(s, pat)
    ensures !OccursAt(s, pat, i)
  {
    if i == 0 {
      OccursLater(s, pat, 0);
    } else {
      OccursLater(s, pat, i - 1);
      IndexIsFirst(s[1..], pat, i - 1);
    }
  }

  lemma {:induction false} FirstIsIndex(s: string, pat: string, i: nat)
    requires OccursAt(s, pat, i) && forall j: nat :: j < i ==> !OccursAt(s, pat, j)
    ensures Contains(s, pat) && Index(s, pat) == i
  {
    if i == 0 {
      assert s[0..|pat|] == s[..|pat|];
    } else {
      OccursLater(s, pat, i - 1);
      forall j: nat | j < i - 1 ensures !OccursAt(s[1..], pat, j) {
        OccursLater(s, pat, j);
      }
      assert !OccursAt(s, pat, 0);
      FirstIsIndex(s[1..], pat, i - 1);
    }
  }

  lemma OccursAlike(a: string, b: string, n: nat, pat: string, i: nat)
    requires n <= |a| && n <= |b| && a[..n] == b[..n] && i + |pat| <= n
    ensures OccursAt(a, pat, i) <==> OccursAt(b, pat, i)
  {
    assert a[i..i + |pat|] == a[..n][i..i + |pat|] && b[i..i + |pat|] == b[..n][i..i + |pat|];
  }

  /** The index is where the pattern occurs first. */
  lemma FirstOccurs(s: string, pat: string)
    requires Contains(s, pat)
    ensures OccursAt(s, pat, Index(s, pat))
    ensures forall j: nat :: j < Index(s, pat) ==> !OccursAt(s, pat, j)
  {
    forall j: nat | j < Index(s, pat) ensures !OccursAt(s, pat, j) {
      IndexIsFirst(s, pat, j);
    }
  }

  lemma SameFirst(a: string, b: string, pat: string, i: nat)
    requires OccursAt(a, pat, i) && forall j: nat :: j < i ==> !OccursAt(a, pat, j)
    requires i + |pat| <= |b| && b[..i + |pat|] == a[..i + |pat|]
    ensures OccursAt(b, pat, i) && forall j: nat :: j < i ==> !OccursAt(b, pat, j)
  {
    OccursAlike(a, b, i + |pat|, pat, i);
    forall j: nat | j < i ensures !OccursAt(b, pat, j) {
      OccursAlike(a, b, i + |pat|, pat, j);
    }
  }

  /** The first occurrence depends only on the text up to its end. */
  lemma SameIndex(a: string, b: string, pat: string, i: nat)
    requires Contains(a, pat) && i == Index(a, pat) && i + |pat| <= |b| && b[..i + |pat|] == a[..i + |pat|]
    ensures Contains(b, pat) && Index(b, pat) == i
  {
    FirstOccurs(a, pat);
    SameFirst(a, b, pat, i);
    FirstIsIndex(b, pat, i);
  }

  lemma {:induction false} FirstRestAfter(lines: seq<string>, opt: string, marker: Marker)
    requires FirstRest(lines, marker).Some? && StartsWith(opt, marker)
    ensures FirstRest(EachWithRest(lines, opt, marker), marker) == Some(opt)
  {
    WithRestTwice(lines[0], opt, opt, marker);
    var r := EachWithRest(lines, opt, marker);
    if Contains(lines[0], marker) {
      assert r[0][Index(lines[0], marker)..] == opt;
    } else {
      assert r[1..] == EachWithRest(lines[1..], opt, marker);
      FirstRestAfter(lines[1..], opt, marker);
    }
  }

  lemma {:induction false} EachWithRestTwice(lines: seq<string>, opt: string, opt': string, marker: Marker)
    requires StartsWith(opt, marker)
    ensures EachWithRest(EachWithRest(lines, opt, marker), opt', marker) == EachWithRest(lines, opt', marker)
  {
    if lines != [] {
      WithRestTwice(lines[0], opt, opt', marker);
      EachWithRestTwice(lines[1..], opt, opt', marker);
      assert EachWithRest(lines, opt, marker)[1..] == EachWithRest(lines[1..], opt, marker);
    }
  }

  lemma {:induction false} FirstRestIsMarked(lines: seq<string>, marker: Marker)
    ensures FirstRest(lines, marker).Some? ==> StartsWith(FirstRest(lines, marker).value, marker)
  {
    if lines != [] {
      FirstRestIsMarked(lines[1..], marker);
      if Contains(lines[0], marker) {
        var i := Index(lines[0], marker);
        assert lines[0][i..][..|marker|] == lines[0][i..i + |marker|];
      }
    }
  }

  lemma AppendsFuse(lines: seq<string>, a: string, b: string, marker: Marker)
    ensures Appended(Appended(lines, a, marker), b, marker) == Appended(lines, a + b, marker)
  {
    FirstRestIsMarked(lines, marker);
    match FirstRest(lines, marker)
    case None =>
    case Some(o) =>
      assert StartsWith(o + a, marker);
      FirstRestAfter(lines, o + a, marker);
      EachWithRestTwice(lines, o + a, o + a + b, marker);
      assert o + a + b == o + (a + b);
  }

  lemma {:induction false} FirstRestAt(lines: seq<string>, i: nat, marker: Marker)
    requires i < |lines| && Contains(lines[i], marker)
    requires forall j :: 0 <= j < i ==> !Contains(lines[j], marker)
    ensures FirstRest(lines, marker) == Some(lines[i][Index(lines[i], marker)..])
  {
    if i > 0 {
      FirstRestAt(lines[1..], i - 1, marker);
    }
  }

  lemma OwnRestExtended(line: string, text: string, marker: Marker)
    requires Contains(line, marker)
    ensures WithRest(line, line[Index(line, marker)..] + text, marker) == line + text
  {
    var at := Index(line, marker);
    assert line[..at] + (line[at..] + text) == line[..at] + line[at..] + text;
    assert line[..at] + line[at..] == line;
  }


  // ---------- what a one-pass removal leaves behind ----------

  /** A literal whose first letter does not come again in it, so that its occurrences cannot overlap. */
  type Word = w: string | w != [] && forall i :: 1 <= i < |w| ==> w[i] != w[0] witness "="

  /** Skipping whole occurrences of the word, the text goes on with its letters from the k-th. */
  predicate Spells(s: string, k: nat, word: Word)
    decreases |s|
  {
    || k >= |word|
    || (StartsWith(s, word) && Spells(s[|word|..], k, word))
    || (s != [] && s[0] == word[k] && Spells(s[1..], k + 1, word))
  }

  /** An occurrence with another one (or more) inside it: its first letter starts no whole occurrence. */
  predicate Nested(s: string, word: Word) {
    s != [] && ((s[0] == word[0] && !StartsWith(s, word) && Spells(s[1..], 1, word)) || Nested(s[1..], word))
  }

  lemma StartsWithFirst(c: char, s: string, d: char, pat: string)
    ensures StartsWith([c] + s, [d] + pat) <==> c == d && StartsWith(s, pat)
  {
    assert |pat| <= |s| ==> ([c] + s)[..|pat| + 1] == [c] + s[..|pat|];
    assert ([d] + pat)[0] == d && ([d] + pat)[1..] == pat;
    assert ([c] + s)[0] == c && ([c] + s)[1..] == s;
  }

  lemma {:induction false} SpellsIsLeft(s: string, k: nat, word: Word)
    requires 1 <= k <= |word|
    ensures StartsWith(ReplaceAll(s, word, ""), word[k..]) <==> Spells(s, k, word)
    decreases |s|
  {
    var r := ReplaceAll(s, word, "");
    if k < |word| {
      assert word[k..] == [word[k]] + word[k + 1..];
      if StartsWith(s, word) {
        assert s[..|word|][0] == word[0] && word[k] != word[0];
        SpellsIsLeft(s[|word|..], k, word);
      } else if s != [] {
        var rest := ReplaceAll(s[1..], word, "");
        SpellsIsLeft(s[1..], k + 1, word);
        assert r == [s[0]] + rest;
        StartsWithFirst(s[0], rest, word[k], word[k + 1..]);
      }
    }
  }

  lemma {:induction false} NestedBeyond(s: string, n: nat, word: Word)
    requires n <= |s| && forall i :: 0 <= i < n ==> s[i] != word[0]
    ensures Nested(s, word) == Nested(s[n..], word)
  {
    if n > 0 {
      NestedBeyond(s[1..], n - 1, word);
      assert s[1..][n - 1..] == s[n..];
    }
  }

  /** The removal is one pass: the word is still there afterwards exactly if an occurrence had another one inside it. */
  lemma {:induction false} LeftBehindExactly(s: string, word: Word)
    ensures Contains(ReplaceAll(s, word, ""), word) <==> Nested(s, word)
    decreases |s|
  {
    var n := |word|;
    if StartsWith(s, word) {
      LeftBehindExactly(s[n..], word);
      assert forall i :: 0 <= i < n ==> s[i] == s[..n][i];
      NestedBeyond(s[1..], n - 1, word);
      assert s[1..][n - 1..] == s[n..];
      assert "" + ReplaceAll(s[n..], word, "") == ReplaceAll(s[n..], word, "");
    } else if s != [] {
      var rest := ReplaceAll(s[1..], word, "");
      LeftBehindExactly(s[1..], word);
      SpellsIsLeft(s[1..], 1, word);
      assert ReplaceAll(s, word, "") == [s[0]] + rest && ([s[0]] + rest)[1..] == rest;
      assert |rest| >= n - 1 ==> ([s[0]] + rest)[..n] == [s[0]] + rest[..n - 1];
      assert word == [word[0]] + word[1..];
    }
  }

  lemma {:induction false} SpellsLetters(k: nat, j: nat, rest: string, word: Word)
    requires k <= j <= |word| && Spells(rest, j, word)
    ensures Spells(word[k..j] + rest, k, word)
    decreases j - k
  {
    var s := word[k..j] + rest;
    if k == j {
      assert s == rest;
    } else {
      SpellsLetters(k + 1, j, rest, word);
      assert s[0] == word[k] && s[1..] == word[k + 1..j] + rest;
    }
  }

  lemma SpelledAfter(k: nat, rest: string, word: Word)
    requires 1 <= k < |word|
    ensures Spells(word[1..k] + (word + (word[k..] + rest)), 1, word)
  {
    var tail := word + (word[k..] + rest);
    SpellsLetters(k, |word|, rest, word);
    assert word[k..|word|] == word[k..];
    assert tail[..|word|] == word && tail[|word|..] == word[k..] + rest;
    SpellsLetters(1, k, tail, word);
  }

  /**
   An occurrence split anywhere by another one survives: removing `cdromBoot` from `cdromcdromBootBoot`
   leaves it there.
   */
  lemma SplitOccurrenceStays(k: nat, rest: string, word: Word)
    requires 1 <= k < |word|
    ensures Contains(ReplaceAll(word[..k] + (word + (word[k..] + rest)), word, ""), word)
  {
    var tail := word + (word[k..] + rest);
    var s := word[..k] + tail;
    SpelledAfter(k, rest, word);
    assert s[k] == tail[0] == word[0];
    assert s[..|word|][k] == s[k];
    SpelledFromStart(s, word[1..k] + tail, word);
  }

  lemma SpelledFromStart(s: string, rest: string, word: Word)
    requires s == [word[0]] + rest && !StartsWith(s, word) && Spells(rest, 1, word)
    ensures Contains(ReplaceAll(s, word, ""), word)
  {
    assert s[1..] == rest;
    LeftBehindExactly(s, word);
  }
}

module BootConfig {
  import opened BootText

  const SEPARATOR := "/"
  const CDROM: Word := "cdromBoot"
  const KERNELOPT: Marker := "kernelopt="
  const PREFIX := "prefix="

  datatype Params = Params(
    prefix: string, kickstartURL: string, mac: string, ip: string, netmask: string, gateway: string,
    vlan: string, allowLegacyCPU: bool)

  // ---------- the rewrite, as the source composes it ----------

  function Strip(src: string): string {
    ReplaceAll(ReplaceAll(src, SEPARATOR, ""), CDROM, "")
  }

  function KsText(p: Params): string { " ks=" + p.kickstartURL }

  function NetText(p: Params): string {
    (" netdevice=" + p.mac) + (" ip=" + p.ip) + (" netmask=" + p.netmask) + (" gateway=" + p.gateway)
  }

  function VlanText(p: Params): string { " vlanid=" + p.vlan }

  const CPU_TEXT := " allowLegacyCPU=true"

  /** The four conditional appends, in the source's order. */
  function AppendHostOpts(src: string, p: Params): string {
    var out := AppendRest(src, KsText(p), KERNELOPT);
    var out := AppendRest(out, NetText(p), KERNELOPT);
    var out := if p.vlan != "" then AppendRest(out, VlanText(p), KERNELOPT) else out;
    if p.allowLegacyCPU then AppendRest(out, CPU_TEXT, KERNELOPT) else out
  }

  function RenderConfig(src: string, p: Params): string {
    var out := AppendHostOpts(Strip(src), p);
    if Contains(out, PREFIX) then ReplaceAll(out, PREFIX, PREFIX + p.prefix) else out
  }

  // ---------- the rewrite, line by line ----------

  /** The text a host's kernel line gets, in order. */
  function OptText(p: Params): string {
    (" ks=" + p.kickstartURL)
    + ((" netdevice=" + p.mac) + (" ip=" + p.ip) + (" netmask=" + p.netmask) + (" gateway=" + p.gateway))
    + (if p.vlan != "" then " vlanid=" + p.vlan else "")
    + (if p.allowLegacyCPU then " allowLegacyCPU=true" else "")
  }

  // ---------- the whole rewrite ----------

  ghost predicate NewlineFree(p: Params) {
    && '\n' !in p.prefix && '\n' !in p.kickstartURL && '\n' !in p.mac && '\n' !in p.ip
    && '\n' !in p.netmask && '\n' !in p.gateway && '\n' !in p.vlan
  }

  function StripEach(lines: seq<string>): seq<string> {
    ReplaceEach(ReplaceEach(lines, SEPARATOR, ""), CDROM, "")
  }

  lemma TextsNewlineFree(p: Params)
    requires NewlineFree(p)
    ensures '\n' !in KsText(p) && '\n' !in NetText(p) && '\n' !in VlanText(p) && '\n' !in CPU_TEXT
  {
  }

  lemma AppendHostOptsLines(s: string, p: Params)
    requires NewlineFree(p)
    ensures Lines(AppendHostOpts(s, p)) == Appended(Lines(s), OptText(p), KERNELOPT)
  {
    TextsNewlineFree(p);
    var ks, net, vlan := KsText(p), NetText(p), VlanText(p);
    var s1 := AppendRest(s, ks, KERNELOPT);
    var s2 := AppendRest(s1, net, KERNELOPT);
    AppendLines(s, ks, KERNELOPT);
    AppendLines(s1, net, KERNELOPT);
    AppendsFuse(Lines(s), ks, net, KERNELOPT);
    var s3, text := s2, ks + net;
    if p.vlan != "" {
      s3, text := AppendRest(s2, vlan, KERNELOPT), ks + net + vlan;
      AppendLines(s2, vlan, KERNELOPT);
      AppendsFuse(Lines(s), ks + net, vlan, KERNELOPT);
    }
    assert OptText(p) == if p.allowLegacyCPU then text + CPU_TEXT else text;
    if p.allowLegacyCPU {
      AppendLines(s3, CPU_TEXT, KERNELOPT);
      AppendsFuse(Lines(s), text, CPU_TEXT, KERNELOPT);
    }
  }

  /**
   Every line of the rendered file, for every source file and all newline-free parameters: the
   stripped source line; with all the appended text in order behind the first kernel options
   if it carries a kernelopt marker; with the prefix behind each prefix marker.
   */
  lemma RenderLines(src: string, p: Params)
    requires NewlineFree(p)
    ensures Lines(RenderConfig(src, p)) ==
            ReplaceEach(Appended(StripEach(Lines(src)), OptText(p), KERNELOPT), PREFIX, PREFIX + p.prefix)
  {
    var out := AppendHostOpts(Strip(src), p);
    StripLines(src);
    AppendHostOptsLines(Strip(src), p);
    PrefixLines(out, p);
  }

  lemma StripLines(src: string)
    ensures Lines(Strip(src)) == StripEach(Lines(src))
  {
    ReplaceAllLines(src, SEPARATOR, "");
    ReplaceAllLines(ReplaceAll(src, SEPARATOR, ""), CDROM, "");
  }

  lemma PrefixLines(out: string, p: Params)
    requires NewlineFree(p)
    ensures Lines(if Contains(out, PREFIX) then ReplaceAll(out, PREFIX, PREFIX + p.prefix) else out) ==
            ReplaceEach(Lines(out), PREFIX, PREFIX + p.prefix)
  {
    ReplaceAllLines(out, PREFIX, PREFIX + p.prefix);
    if !Contains(out, PREFIX) {
      ReplaceAllAbsent(out, PREFIX, PREFIX + p.prefix);
    }
  }

  /** A line whose stripped text carries neither marker comes out as exactly that text, and no line is added or lost. */
  lemma UntargetedLineSurvives(src: string, p: Params, i: nat)
    requires NewlineFree(p) && i < |Lines(src)|
    requires !Contains(Strip(Lines(src)[i]), "kernelopt=") && !Contains(Strip(Lines(src)[i]), "prefix=")
    ensures |Lines(RenderConfig(src, p))| == |Lines(src)|
    ensures Lines(RenderConfig(src, p))[i] == ReplaceAll(ReplaceAll(Lines(src)[i], "/", ""), "cdromBoot", "")
  {
    RenderLines(src, p);
    ReplaceAllAbsent(Strip(Lines(src)[i]), PREFIX, PREFIX + p.prefix);
  }

  /**
   The first kernelopt line is its stripped self followed by the kickstart, network, vlan and
   legacy-CPU text, the URL among it untouched, provided no prefix marker occurs in it.
   */
  lemma KernelLineExtended(src: string, p: Params, i: nat)
    requires NewlineFree(p) && PrefixFree(p) && i < |Lines(src)|
    requires Contains(Strip(Lines(src)[i]), "kernelopt=") && !Contains(Strip(Lines(src)[i]), "prefix=")
    requires forall j :: 0 <= j < i ==> !Contains(Strip(Lines(src)[j]), "kernelopt=")
    ensures |Lines(RenderConfig(src, p))| == |Lines(src)|
    ensures Lines(RenderConfig(src, p))[i] == Strip(Lines(src)[i])
      + ((" ks=" + p.kickstartURL)
         + ((" netdevice=" + p.mac) + (" ip=" + p.ip) + (" netmask=" + p.netmask) + (" gateway=" + p.gateway))
         + (if p.vlan != "" then " vlanid=" + p.vlan else "")
         + (if p.allowLegacyCPU then " allowLegacyCPU=true" else ""))
  {
    RenderLines(src, p);
    var lines := StripEach(Lines(src));
    FirstLineExtended(lines, i, OptText(p));
    NoPrefixWithOptions(lines[i], p);
  }

  /** The first line with kernel options gets the text behind its own. */
  lemma FirstLineExtended(lines: seq<string>, i: nat, text: string)
    requires i < |lines| && Contains(lines[i], KERNELOPT)
    requires forall j :: 0 <= j < i ==> !Contains(lines[j], KERNELOPT)
    ensures |Appended(lines, text, KERNELOPT)| == |lines| && Appended(lines, text, KERNELOPT)[i] == lines[i] + text
  {
    FirstRestAt(lines, i, KERNELOPT);
    OwnRestExtended(lines[i], text, KERNELOPT);
  }

  lemma NoPrefixWithOptions(line: string, p: Params)
    requires PrefixFree(p) && !Contains(line, PREFIX)
    ensures ReplaceAll(line + OptText(p), PREFIX, PREFIX + p.prefix) == line + OptText(p)
  {
    OptTextPrefixFree(p);
    SpaceBreaks(line, OptText(p));
    ReplaceAllAbsent(line + OptText(p), PREFIX, PREFIX + p.prefix);
  }

  /** The prefix line of the shipped file, which is empty, gets the prefix as its value. */
  lemma PrefixLineFilled(src: string, p: Params, i: nat)
    requires NewlineFree(p) && i < |Lines(src)| && Strip(Lines(src)[i]) == "prefix="
    ensures |Lines(RenderConfig(src, p))| == |Lines(src)|
    ensures Lines(RenderConfig(src, p))[i] == "prefix=" + p.prefix
  {
    RenderLines(src, p);
    NoKernelOptInPrefix(PREFIX);
    PrefixReplaced(PREFIX + p.prefix);
  }

  lemma PrefixReplaced(sub: string)
    ensures ReplaceAll(PREFIX, PREFIX, sub) == sub
  {
    assert PREFIX[|PREFIX|..] == [];
    assert sub + ReplaceAll([], PREFIX, sub) == sub;
  }

  lemma {:induction false} NoKernelOptInPrefix(s: string)
    requires |s| < |KERNELOPT|
    ensures !Contains(s, KERNELOPT)
  {
    if s != [] {
      NoKernelOptInPrefix(s[1..]);
    }
  }

  // ---------- no marker arises where texts meet ----------

  ghost predicate PrefixFree(p: Params) {
    && !Contains(p.kickstartURL, PREFIX) && !Contains(p.mac, PREFIX) && !Contains(p.ip, PREFIX)
    && !Contains(p.netmask, PREFIX) && !Contains(p.gateway, PREFIX) && !Contains(p.vlan, PREFIX)
  }

  /** The marker contains no space, so it cannot reach across one. */
  lemma {:induction false} SpaceBreaks(a: string, b: string)
    requires !Contains(a, PREFIX) && !Contains(b, PREFIX) && b != [] && b[0] == ' '
    ensures !Contains(a + b, PREFIX)
  {
    if a == [] {
      assert a + b == b;
    } else {
      SpaceBreaks(a[1..], b);
      assert (a + b)[1..] == a[1..] + b;
      assert |a| < |PREFIX| <= |a + b| ==> (a + b)[..|PREFIX|][|a|] == ' ';
      assert |PREFIX| <= |a| ==> (a + b)[..|PREFIX|] == a[..|PREFIX|];
    }
  }

  /** The marker has its only equals sign at its end, so it cannot reach across one either. */
  lemma {:induction false} EqualsBreaks(a: string, b: string)
    requires a != [] && a[|a| - 1] == '=' && !Contains(a, PREFIX) && !Contains(b, PREFIX)
    ensures !Contains(a + b, PREFIX)
  {
    assert (a + b)[1..] == a[1..] + b;
    if |a| == 1 {
      assert a[1..] + b == b;
    } else {
      EqualsBreaks(a[1..], b);
    }
    assert |a| < |PREFIX| <= |a + b| ==> (a + b)[..|PREFIX|][|a| - 1] == '=';
    assert |PREFIX| <= |a| ==> (a + b)[..|PREFIX|] == a[..|PREFIX|];
  }

  lemma {:induction false} NoPrWithin(s: string)
    requires forall i :: 0 <= i < |s| - 1 ==> s[i] == 'p' ==> s[i + 1] != 'r'
    ensures !Contains(s, PREFIX)
  {
    if s != [] {
      NoPrWithin(s[1..]);
      assert |PREFIX| <= |s| ==> s[..|PREFIX|][0] == s[0] && s[..|PREFIX|][1] == s[1];
    }
  }

  /** A label and its value: the label spells no part of the marker that matters. */
  lemma PiecePrefixFree(name: string, value: string)
    requires name != [] && name[0] == ' ' && name[|name| - 1] == '='
    requires forall i :: 0 <= i < |name| - 1 ==> name[i] == 'p' ==> name[i + 1] != 'r'
    requires !Contains(value, PREFIX)
    ensures !Contains(name + value, PREFIX) && (name + value)[0] == ' '
  {
    NoPrWithin(name);
    EqualsBreaks(name, value);
  }

  lemma NetTextPrefixFree(p: Params)
    requires PrefixFree(p)
    ensures !Contains(NetText(p), PREFIX) && NetText(p)[0] == ' '
  {
    var dev, ip, mask, gw := " netdevice=" + p.mac, " ip=" + p.ip, " netmask=" + p.netmask, " gateway=" + p.gateway;
    PiecePrefixFree(" netdevice=", p.mac);
    PiecePrefixFree(" ip=", p.ip);
    PiecePrefixFree(" netmask=", p.netmask);
    PiecePrefixFree(" gateway=", p.gateway);
    SpaceBreaks(dev, ip);
    SpaceBreaks(dev + ip, mask);
    SpaceBreaks(dev + ip + mask, gw);
  }

  lemma OptionalTextPrefixFree(text: string, more: string, present: bool)
    requires !Contains(text, PREFIX) && !Contains(more, PREFIX) && more != [] && more[0] == ' '
    ensures !Contains(text + (if present then more else ""), PREFIX)
  {
    if present {
      SpaceBreaks(text, more);
    } else {
      assert text + "" == text;
    }
  }

  lemma OptTextPrefixFree(p: Params)
    requires PrefixFree(p)
    ensures !Contains(OptText(p), PREFIX) && OptText(p) != [] && OptText(p)[0] == ' '
  {
    PiecePrefixFree(" ks=", p.kickstartURL);
    NetTextPrefixFree(p);
    PiecePrefixFree(" vlanid=", p.vlan);
    NoPrWithin(CPU_TEXT);
    SpaceBreaks(KsText(p), NetText(p));
    OptionalTextPrefixFree(KsText(p) + NetText(p), VlanText(p), p.vlan != "");
    OptionalTextPrefixFree(
      KsText(p) + NetText(p) + (if p.vlan != "" then VlanText(p) else ""), CPU_TEXT, p.allowLegacyCPU);
  }

  // ---------- what one pass of the cdromBoot removal leaves behind ----------

  /** cdromBoot survives the stripping exactly if, separators aside, one occurrence was nested in another. */
  lemma CdromSurvivesExactly(src: string)
    ensures Contains(Strip(src), CDROM) <==> Nested(ReplaceAll(src, SEPARATOR, ""), CDROM)
  {
    LeftBehindExactly(ReplaceAll(src, SEPARATOR, ""), CDROM);
  }

  /** The input: one cdromBoot inside another. */
  lemma CdromIsLeftBehind() returns (src: string)
    ensures src == "cdromcdromBootBoot" && Contains(Strip(src), CDROM)
  {
    src := NestedInput(CDROM);
    NoSeparator(src);
  }

  lemma NestedInput(word: Word) returns (src: string)
    requires word == "cdromBoot"
    ensures src == "cdromcdromBootBoot" && '/' !in src && Contains(ReplaceAll(src, word, ""), word)
  {
    src := word[..5] + (word + (word[5..] + ""));
    assert word[..5] == "cdrom" && word[5..] == "Boot";
    SplitOccurrenceStays(5, "", word);
    assert forall i :: 0 <= i < |src| ==> src[i] != '/';
  }

  lemma {:induction false} NoSeparator(s: string)
    requires '/' !in s
    ensures ReplaceAll(s, SEPARATOR, "") == s
  {
    if s != [] {
      NoSeparator(s[1..]);
    }
  }
}
