/** pattern_match of ff.c: wildcard matching of a file name. Names and patterns are sequences of characters without the
    terminating zero; fold stands for the conversion to upper case. */
module PatternMatch {

  const Question := 63
  const Star := 42

  /** FIND_RECURS. */
  const MaxTerms := 4

  predicate Wild(c: nat) { c == Question || c == Star }

  /** What a pattern means: '?' is any character, '*' any string. */
  ghost predicate Matches(fold: nat -> nat, pat: seq<nat>, nam: seq<nat>)
    decreases |pat|
  {
    if pat == [] then nam == []
    else if pat[0] == Star then exists k :: 0 <= k <= |nam| && Matches(fold, pat[1..], nam[k..])
    else if pat[0] == Question then nam != [] && Matches(fold, pat[1..], nam[1..])
    else nam != [] && fold(pat[0]) == fold(nam[0]) && Matches(fold, pat[1..], nam[1..])
  }

  /** The pattern matches the name from place k on. */
  ghost predicate MatchesFrom(fold: nat -> nat, pat: seq<nat>, nam: seq<nat>, k: nat) {
    k <= |nam| && Matches(fold, pat, nam[k..])
  }

  /** At least q characters, exactly q without a star, and then a match. */
  ghost predicate SkipMatches(fold: nat -> nat, pat: seq<nat>, nam: seq<nat>, q: nat, star: bool) {
    if star then exists k :: q <= k && MatchesFrom(fold, pat, nam, k) else MatchesFrom(fold, pat, nam, q)
  }

  /** The length of the wildcard term a pattern begins with. */
  function RunLength(pat: seq<nat>): (r: nat)
    ensures r <= |pat| && (forall i :: 0 <= i < r ==> Wild(pat[i])) && (r < |pat| ==> !Wild(pat[r]))
  {
    if pat == [] || !Wild(pat[0]) then 0 else 1 + RunLength(pat[1..])
  }

  function Questions(s: seq<nat>): (q: nat)
    ensures q <= |s|
  {
    if s == [] then 0 else Questions(s[..|s| - 1]) + if s[|s| - 1] == Question then 1 else 0
  }

  /** The number of wildcard terms. */
  function Terms(pat: seq<nat>): nat
    decreases |pat|
  {
    if pat == [] then 0
    else if Wild(pat[0]) then 1 + Terms(pat[RunLength(pat)..])
    else Terms(pat[1..])
  }

  /** Every wildcard term has fewer than 256 question marks. */
  predicate Short(pat: seq<nat>)
    decreases |pat|
  {
    if pat == [] then true
    else if Wild(pat[0]) then Questions(pat[..RunLength(pat)]) < 256 && Short(pat[RunLength(pat)..])
    else Short(pat[1..])
  }

  /** What the analysis of a wildcard term yields: the characters to skip, and 0x100 for a star. */
  function Code(run: seq<nat>): nat {
    if run == [] then 0
    else
      var c := Code(run[..|run| - 1]);
      if run[|run| - 1] == Question then c + 1 else if c / 256 % 2 == 1 then c else c + 256
  }

  /** What the code accepts, for every pattern: a wildcard term skips the low byte of its code, and any number of
      characters more if the code has a higher bit. */
  ghost predicate Accepts(fold: nat -> nat, pat: seq<nat>, nam: seq<nat>)
    decreases |pat|, 0
  {
    if pat == [] then nam == []
    else if Wild(pat[0]) then
      var r := RunLength(pat);
      SkipAccepts(fold, pat[r..], nam, Code(pat[..r]) % 256, Code(pat[..r]) >= 256)
    else nam != [] && fold(pat[0]) == fold(nam[0]) && Accepts(fold, pat[1..], nam[1..])
  }

  ghost predicate AcceptsFrom(fold: nat -> nat, pat: seq<nat>, nam: seq<nat>, k: nat)
    decreases |pat|, 1
  {
    k <= |nam| && Accepts(fold, pat, nam[k..])
  }

  ghost predicate SkipAccepts(fold: nat -> nat, pat: seq<nat>, nam: seq<nat>, q: nat, star: bool)
    decreases |pat|, 2
  {
    if star then exists k :: q <= k && AcceptsFrom(fold, pat, nam, k) else AcceptsFrom(fold, pat, nam, q)
  }

  predicate Literal(pat: seq<nat>, l: nat)
    requires l <= |pat|
  {
    forall i :: 0 <= i < l ==> !Wild(pat[i])
  }

  predicate Agree(fold: nat -> nat, pat: seq<nat>, nam: seq<nat>, n: nat, l: nat)
    requires l <= |pat|
  {
    n + l <= |nam| && forall i :: 0 <= i < l ==> fold(pat[i]) == fold(nam[n + i])
  }

  // ----- the meaning of a pattern in terms of literals and wildcard terms -----

  lemma {:induction false} LiteralTerms(pat: seq<nat>, l: nat)
    requires l <= |pat| && Literal(pat, l)
    ensures Terms(pat) == Terms(pat[l..])
    decreases l
  {
    if l > 0 {
      LiteralTerms(pat[1..], l - 1);
      assert pat[1..][l - 1..] == pat[l..];
    } else {
      assert pat[0..] == pat;
    }
  }

  lemma FromTail(fold: nat -> nat, pat: seq<nat>, nam: seq<nat>, j: nat, k: nat)
    requires j <= |nam|
    ensures MatchesFrom(fold, pat, nam[j..], k) <==> MatchesFrom(fold, pat, nam, j + k)
  {
    if j + k <= |nam| { assert nam[j..][k..] == nam[j + k..]; }
  }

  /** One more question mark in front. */
  lemma SkipQuestion(fold: nat -> nat, pat: seq<nat>, nam: seq<nat>, q: nat, star: bool)
    ensures SkipMatches(fold, pat, nam, q + 1, star) <==> nam != [] && SkipMatches(fold, pat, nam[1..], q, star)
  {
    hide MatchesFrom;
    if nam == [] {
      forall k | q + 1 <= k ensures !MatchesFrom(fold, pat, nam, k) { NotBehind(fold, pat, nam, k); }
    } else {
      FromTail(fold, pat, nam, 1, q);
      forall k | q <= k
        ensures MatchesFrom(fold, pat, nam[1..], k) <==> MatchesFrom(fold, pat, nam, k + 1)
      {
        FromTail(fold, pat, nam, 1, k);
      }
      if star && SkipMatches(fold, pat, nam, q + 1, star) {
        var k :| q + 1 <= k && MatchesFrom(fold, pat, nam, k);
        FromTail(fold, pat, nam, 1, k - 1);
      }
    }
  }

  lemma NotBehind(fold: nat -> nat, pat: seq<nat>, nam: seq<nat>, k: nat)
    requires |nam| < k
    ensures !MatchesFrom(fold, pat, nam, k)
  {
  }

  /** One more star in front. */
  lemma SkipStar(fold: nat -> nat, pat: seq<nat>, nam: seq<nat>, q: nat, star: bool)
    ensures SkipMatches(fold, pat, nam, q, true) <==>
      exists j :: 0 <= j <= |nam| && SkipMatches(fold, pat, nam[j..], q, star)
  {
    if SkipMatches(fold, pat, nam, q, true) {
      var k :| q <= k && MatchesFrom(fold, pat, nam, k);
      FromTail(fold, pat, nam, k - q, q);
      assert SkipMatches(fold, pat, nam[k - q..], q, star);
    }
    hide MatchesFrom;
    forall j | 0 <= j <= |nam| && SkipMatches(fold, pat, nam[j..], q, star)
      ensures SkipMatches(fold, pat, nam, q, true)
    {
      var k :| q <= k && MatchesFrom(fold, pat, nam[j..], k);
      FromTail(fold, pat, nam, j, k);
    }
  }

  lemma {:induction false} QuestionsFront(c: nat, s: seq<nat>)
    ensures Questions([c] + s) == Questions(s) + if c == Question then 1 else 0
    decreases |s|
  {
    if s != [] {
      QuestionsFront(c, s[..|s| - 1]);
      assert ([c] + s)[..|s|] == [c] + s[..|s| - 1];
    } else {
      assert ([c] + s)[..0] == [];
    }
  }

  /** A wildcard term means: as many characters as it has question marks, or more if it has a star. */
  lemma {:induction false} RunMatches(fold: nat -> nat, pat: seq<nat>, nam: seq<nat>)
    ensures var r := RunLength(pat);
            Matches(fold, pat, nam) <==> SkipMatches(fold, pat[r..], nam, Questions(pat[..r]), Star in pat[..r])
    decreases |pat|
  {
    var r := RunLength(pat);
    if r == 0 {
      assert pat[0..] == pat && nam[0..] == nam && pat[..0] == [];
    } else {
      hide SkipMatches;
      var p1 := pat[1..];
      assert pat[..r] == [pat[0]] + p1[..r - 1] && p1[r - 1..] == pat[r..];
      QuestionsFront(pat[0], p1[..r - 1]);
      var q, star := Questions(p1[..r - 1]), Star in p1[..r - 1];
      if pat[0] == Star {
        SkipStar(fold, pat[r..], nam, q, star);
        forall k | 0 <= k <= |nam|
          ensures Matches(fold, p1, nam[k..]) <==> SkipMatches(fold, pat[r..], nam[k..], q, star)
        {
          RunMatches(fold, p1, nam[k..]);
        }
      } else {
        SkipQuestion(fold, pat[r..], nam, q, star);
        if nam != [] { RunMatches(fold, p1, nam[1..]); }
      }
    }
  }

  /** The end of a string is read as 0; no character is folded to it. */
  ghost predicate Text(fold: nat -> nat, s: seq<nat>) {
    forall i :: 0 <= i < |s| ==> fold(s[i]) != 0
  }

  /** get_achar. */
  function GetChar(fold: nat -> nat, s: seq<nat>, i: nat): nat {
    if i < |s| then fold(s[i]) else 0
  }

  // ----- what the code accepts, and what the pattern means -----

  /** The low byte of the code counts the question marks; a higher bit is set by a star, or by 256 of them. */
  lemma {:induction false} CodeOf(run: seq<nat>)
    requires forall i :: 0 <= i < |run| ==> Wild(run[i])
    ensures Code(run) % 256 == Questions(run) % 256
    ensures if Star in run then Code(run) >= 256 else Code(run) == Questions(run)
    decreases |run|
  {
    if run != [] {
      var before := run[..|run| - 1];
      assert run == before + [run[|run| - 1]];
      CodeOf(before);
      SameByte(Code(before), Questions(before));
    }
  }

  lemma SameByte(c: nat, q: nat)
    requires c % 256 == q % 256
    ensures (c + 1) % 256 == (q + 1) % 256 && (c + 256) % 256 == q % 256
  {
  }

  /** For a pattern whose terms are short the code accepts what the pattern means. */
  lemma {:induction false} AcceptsShort(fold: nat -> nat, pat: seq<nat>, nam: seq<nat>)
    requires Short(pat)
    ensures Accepts(fold, pat, nam) <==> Matches(fold, pat, nam)
    decreases |pat|
  {
    if pat != [] {
      if Wild(pat[0]) {
        var r := RunLength(pat);
        CodeOf(pat[..r]);
        RunMatches(fold, pat, nam);
        forall k: nat
          ensures AcceptsFrom(fold, pat[r..], nam, k) <==> MatchesFrom(fold, pat[r..], nam, k)
        {
          if k <= |nam| { AcceptsShort(fold, pat[r..], nam[k..]); }
        }
        var q, star := Questions(pat[..r]), Star in pat[..r];
        assert Code(pat[..r]) % 256 == q && (Code(pat[..r]) >= 256 <==> star);
        assert SkipAccepts(fold, pat[r..], nam, q, star) <==> SkipMatches(fold, pat[r..], nam, q, star);
      } else if nam != [] {
        AcceptsShort(fold, pat[1..], nam[1..]);
      }
    }
  }

  /** A shortest name: with question marks for the wildcard terms, as many as the pattern asks for, or only as many as
      the code looks at. */
  function Shortest(pat: seq<nat>, code: bool): seq<nat>
    decreases |pat|
  {
    if pat == [] then []
    else if Wild(pat[0]) then
      var r := RunLength(pat);
      var q := Questions(pat[..r]);
      seq(if code then q % 256 else q, _ => Question) + Shortest(pat[r..], code)
    else [pat[0]] + Shortest(pat[1..], code)
  }

  lemma {:induction false} ShortestAccepted(fold: nat -> nat, pat: seq<nat>)
    ensures Accepts(fold, pat, Shortest(pat, true))
    decreases |pat|
  {
    if pat != [] {
      var nam := Shortest(pat, true);
      if Wild(pat[0]) {
        var r := RunLength(pat);
        CodeOf(pat[..r]);
        ShortestAccepted(fold, pat[r..]);
        assert nam[Questions(pat[..r]) % 256..] == Shortest(pat[r..], true);
        assert AcceptsFrom(fold, pat[r..], nam, Questions(pat[..r]) % 256);
      } else {
        ShortestAccepted(fold, pat[1..]);
        assert nam[1..] == Shortest(pat[1..], true);
      }
    }
  }

  lemma {:induction false} ShortestMatches(fold: nat -> nat, pat: seq<nat>)
    ensures Matches(fold, pat, Shortest(pat, false))
    decreases |pat|
  {
    if pat != [] {
      var nam := Shortest(pat, false);
      if Wild(pat[0]) {
        var r := RunLength(pat);
        ShortestMatches(fold, pat[r..]);
        assert nam[Questions(pat[..r])..] == Shortest(pat[r..], false);
        assert MatchesFrom(fold, pat[r..], nam, Questions(pat[..r]));
        RunMatches(fold, pat, nam);
      } else {
        ShortestMatches(fold, pat[1..]);
        assert nam[1..] == Shortest(pat[1..], false);
      }
    }
  }

  lemma FromInside(fold: nat -> nat, pat: seq<nat>, nam: seq<nat>, k: nat)
    requires MatchesFrom(fold, pat, nam, k)
    ensures k <= |nam| && Matches(fold, pat, nam[k..])
  {
  }

  /** No name shorter than the shortest one matches. */
  lemma {:induction false} MatchLength(fold: nat -> nat, pat: seq<nat>, nam: seq<nat>)
    requires Matches(fold, pat, nam)
    ensures |nam| >= |Shortest(pat, false)|
    decreases |pat|
  {
    if pat != [] {
      if Wild(pat[0]) {
        var r := RunLength(pat);
        var q := Questions(pat[..r]);
        RunMatches(fold, pat, nam);
        var k: nat :| q <= k && MatchesFrom(fold, pat[r..], nam, k);
        FromInside(fold, pat[r..], nam, k);
        MatchLength(fold, pat[r..], nam[k..]);
      } else {
        MatchLength(fold, pat[1..], nam[1..]);
      }
    }
  }

  /** The code is content with fewer characters just when a term is too long for it. */
  lemma {:induction false} ShortestLengths(pat: seq<nat>)
    ensures |Shortest(pat, true)| <= |Shortest(pat, false)|
    ensures |Shortest(pat, true)| < |Shortest(pat, false)| <==> !Short(pat)
    decreases |pat|
  {
    if pat != [] {
      if Wild(pat[0]) { ShortestLengths(pat[RunLength(pat)..]); } else { ShortestLengths(pat[1..]); }
    }
  }

  lemma {:induction false} ShortestText(fold: nat -> nat, pat: seq<nat>, code: bool)
    requires Text(fold, pat)
    ensures Text(fold, Shortest(pat, code))
    decreases |pat|
  {
    if pat != [] {
      if Wild(pat[0]) {
        var r := RunLength(pat);
        ShortestText(fold, pat[r..], code);
        QuestionIn(pat[..r]);
      } else {
        ShortestText(fold, pat[1..], code);
      }
    }
  }

  lemma {:induction false} QuestionIn(s: seq<nat>)
    ensures Questions(s) > 0 ==> Question in s
    decreases |s|
  {
    if s != [] { QuestionIn(s[..|s| - 1]); }
  }

  /** The answer of the code is right for every name just when each term has fewer than 256 question marks, and the
      pattern has no more terms than the recursion allows. */
  lemma RightForAllNames(fold: nat -> nat, pat: seq<nat>)
    requires Text(fold, pat)
    ensures (forall nam :: Text(fold, nam) ==> (Answer(fold, pat, nam) <==> Matches(fold, pat, nam)))
       <==> Short(pat) && Terms(pat) <= MaxTerms
  {
    if Short(pat) && Terms(pat) <= MaxTerms {
      forall nam | Text(fold, nam) ensures Answer(fold, pat, nam) <==> Matches(fold, pat, nam) {
        AcceptsShort(fold, pat, nam);
      }
    } else {
      var nam := Shortest(pat, Terms(pat) <= MaxTerms);
      ShortestText(fold, pat, Terms(pat) <= MaxTerms);
      if Terms(pat) <= MaxTerms {
        ShortestAccepted(fold, pat);
        ShortestLengths(pat);
        if Matches(fold, pat, nam) { MatchLength(fold, pat, nam); }
      } else {
        ShortestMatches(fold, pat);
      }
      assert Text(fold, nam) && !(Answer(fold, pat, nam) <==> Matches(fold, pat, nam));
    }
  }

  /** What the test of f_findnext answers. */
  ghost predicate Answer(fold: nat -> nat, pat: seq<nat>, nam: seq<nat>) {
    Accepts(fold, pat, nam) && Terms(pat) <= MaxTerms
  }

  lemma {:induction false} ManyQuestions(n: nat)
    ensures Code(seq(n, _ => Question)) == n == Questions(seq(n, _ => Question))
  {
    if n > 0 {
      assert seq(n, _ => Question)[..n - 1] == seq(n - 1, _ => Question);
      ManyQuestions(n - 1);
    }
  }

  /** A pattern of 256 question marks: the answer for the empty name is that it matches. */
  lemma LongTerm(fold: nat -> nat)
    ensures var long := seq(256, _ => Question);
            Answer(fold, long, []) && !Matches(fold, long, [])
  {
    var long := seq(256, _ => Question);
    ManyQuestions(256);
    WholeRun(long);
    assert long[256..] == [] && Terms(long[256..]) == 0;
    assert AcceptsFrom(fold, [], [], 0);
  }

  lemma {:induction false} WholeRun(s: seq<nat>)
    requires forall i :: 0 <= i < |s| ==> Wild(s[i])
    ensures RunLength(s) == |s| && s[..RunLength(s)] == s
    decreases |s|
  {
    if s != [] { WholeRun(s[1..]); }
  }

  lemma {:induction false} LiteralAccepts(fold: nat -> nat, pat: seq<nat>, nam: seq<nat>, l: nat)
    requires l <= |pat| && Literal(pat, l)
    ensures Accepts(fold, pat, nam) <==> Agree(fold, pat, nam, 0, l) && Accepts(fold, pat[l..], nam[l..])
    decreases l
  {
    if l > 0 {
      if nam != [] {
        LiteralAccepts(fold, pat[1..], nam[1..], l - 1);
        assert pat[1..][l - 1..] == pat[l..];
        if l <= |nam| { assert nam[1..][l - 1..] == nam[l..]; }
        assert Agree(fold, pat, nam, 0, l) <==>
          fold(pat[0]) == fold(nam[0]) && Agree(fold, pat[1..], nam[1..], 0, l - 1);
      }
    } else {
      assert pat[0..] == pat && nam[0..] == nam;
    }
  }

  lemma NotAcceptedBehind(fold: nat -> nat, pat: seq<nat>, nam: seq<nat>, k: nat)
    requires |nam| < k
    ensures !AcceptsFrom(fold, pat, nam, k)
  {
  }

  /** What the code accepts of a wildcard term and what follows it. */
  lemma RunAccepts(fold: nat -> nat, pat: seq<nat>, nam: seq<nat>)
    requires pat != [] && Wild(pat[0])
    ensures var r := RunLength(pat);
            0 < r && (Accepts(fold, pat, nam) <==>
              SkipAccepts(fold, pat[r..], nam, Code(pat[..r]) % 256, Code(pat[..r]) >= 256))
  {
  }

  /** No match without as many characters as the pattern has literals in front. */
  lemma LiteralsNeed(fold: nat -> nat, pat: seq<nat>, nam: seq<nat>, l: nat, k: nat)
    requires l <= |pat| && Literal(pat, l) && k + l > |nam|
    ensures !AcceptsFrom(fold, pat, nam, k)
  {
    if k <= |nam| { LiteralAccepts(fold, pat, nam[k..], l); }
  }

  /** A mismatch behind l literals which agree. */
  lemma LiteralDiffers(fold: nat -> nat, pat: seq<nat>, nam: seq<nat>, n: nat, l: nat)
    requires l < |pat| && Literal(pat, l + 1) && n + l < |nam| && fold(pat[l]) != fold(nam[n + l])
    ensures !AcceptsFrom(fold, pat, nam, n)
  {
    LiteralAccepts(fold, pat, nam[n..], l + 1);
    assert nam[n..][l] == nam[n + l];
  }

  /** The rest behind l literals which agree. */
  lemma LiteralRest(fold: nat -> nat, pat: seq<nat>, nam: seq<nat>, n: nat, l: nat)
    requires l <= |pat| && Literal(pat, l) && Agree(fold, pat, nam, n, l)
    ensures AcceptsFrom(fold, pat, nam, n) <==> Accepts(fold, pat[l..], nam[n + l..])
  {
    LiteralAccepts(fold, pat, nam[n..], l);
    assert nam[n..][l..] == nam[n + l..];
    assert Agree(fold, pat, nam[n..], 0, l);
  }

  method ReadTerm(pat: seq<nat>, p: nat) returns (e: nat, sk: nat)
    requires p < |pat| && Wild(pat[p])
    ensures e == p + RunLength(pat[p..]) <= |pat|
    ensures sk == Code(pat[p..][..RunLength(pat[p..])])
  {
    ghost var tail := pat[p..];
    ghost var r := RunLength(tail);
    e, sk := p, 0;
    while true
      invariant p <= e < |pat| && e - p < r && sk == Code(tail[..e - p])
      decreases |pat| - e
    {
      ghost var i := e - p;
      assert tail[..i + 1][..i] == tail[..i] && tail[..i + 1][i] == tail[i] == pat[e];
      if pat[e] == Question { sk := sk + 1; } else if sk / 256 % 2 == 0 { sk := sk + 256; }
      e := e + 1;
      if e == |pat| || !Wild(pat[e]) { break; }
    }
  }

  /** The inner loop of pattern_match: the pattern against the name from place n on. stop: the recursion count does not
      allow the wildcard term. end: the name ended where the match failed. */
  method TryAt(fold: nat -> nat, pat: seq<nat>, nam: seq<nat>, n: nat, recur: nat)
    returns (res: bool, stop: bool, end: bool)
    requires n <= |nam| && Text(fold, pat) && Text(fold, nam)
    ensures res ==> AcceptsFrom(fold, pat, nam, n) && Terms(pat) <= recur
    ensures !res && !stop && Terms(pat) <= recur ==> !AcceptsFrom(fold, pat, nam, n)
    ensures stop ==> !res && recur < Terms(pat)
    ensures !res && !stop && n == |nam| ==> end
    ensures !res && !stop && end ==> forall k :: n < k ==> !AcceptsFrom(fold, pat, nam, k)
    decreases recur, 0
  {
    hide Accepts, Terms, Questions, Code, RunLength, SkipAccepts, AcceptsFrom;
    var p, m := 0, n;
    while true
      invariant p <= |pat| && m == n + p <= |nam| && Literal(pat, p) && Agree(fold, pat, nam, n, p)
      decreases |pat| - p
    {
      LiteralRest(fold, pat, nam, n, p);
      if p < |pat| && Wild(pat[p]) {
        TermAhead(pat, p);
        if recur == 0 { return false, true, false; }
        var e, sk := ReadTerm(pat, p);
        RunAccepts(fold, pat[p..], nam[m..]);
        assert pat[p..][RunLength(pat[p..])..] == pat[e..];
        res := PatternMatch(fold, pat[e..], nam[m..], sk, recur - 1);
        if !res && m == |nam| {
          forall k | n < k ensures !AcceptsFrom(fold, pat, nam, k) { LiteralsNeed(fold, pat, nam, p, k); }
        }
        return res, false, m == |nam|;
      }
      var pchr, nchr := GetChar(fold, pat, p), GetChar(fold, nam, m);
      if pchr != nchr {
        NoMatchHere(fold, pat, nam, n, p);
        return false, false, nchr == 0;
      }
      if pchr == 0 {
        BothEnd(fold, pat, nam, n, p);
        return true, false, false;
      }
      p, m := p + 1, m + 1;
    }
  }

  lemma TermAhead(pat: seq<nat>, p: nat)
    requires p < |pat| && Wild(pat[p]) && Literal(pat, p)
    ensures var r := RunLength(pat[p..]);
            Terms(pat) == 1 + Terms(pat[p..][r..])
  {
    LiteralTerms(pat, p);
  }

  lemma NoMatchHere(fold: nat -> nat, pat: seq<nat>, nam: seq<nat>, n: nat, p: nat)
    requires p <= |pat| && n + p <= |nam| && Literal(pat, p) && Agree(fold, pat, nam, n, p) && Text(fold, pat)
    requires Text(fold, nam)
    requires p < |pat| ==> !Wild(pat[p])
    requires GetChar(fold, pat, p) != GetChar(fold, nam, n + p)
    ensures !AcceptsFrom(fold, pat, nam, n)
    ensures GetChar(fold, nam, n + p) == 0 ==> forall k :: n < k ==> !AcceptsFrom(fold, pat, nam, k)
  {
    if n + p < |nam| {
      if p < |pat| {
        LiteralDiffers(fold, pat, nam, n, p);
      } else {
        LiteralRest(fold, pat, nam, n, p);
      }
    } else {
      forall k | n <= k ensures !AcceptsFrom(fold, pat, nam, k) { LiteralsNeed(fold, pat, nam, p + 1, k); }
    }
  }

  lemma BothEnd(fold: nat -> nat, pat: seq<nat>, nam: seq<nat>, n: nat, p: nat)
    requires p <= |pat| && n + p <= |nam| && Literal(pat, p) && Agree(fold, pat, nam, n, p) && Text(fold, pat)
    requires Text(fold, nam)
    requires GetChar(fold, pat, p) == 0 == GetChar(fold, nam, n + p)
    ensures AcceptsFrom(fold, pat, nam, n) && Terms(pat) == 0
  {
    LiteralTerms(pat, p);
    LiteralRest(fold, pat, nam, n, p);
    assert pat[p..] == [] && nam[n + p..] == [];
  }

  /** pattern_match. skip0: the characters to skip, and 0x100 for any number more; recur: how many wildcard terms may
      follow. */
  method PatternMatch(fold: nat -> nat, pat: seq<nat>, nam: seq<nat>, skip0: nat, recur: nat) returns (res: bool)
    requires Text(fold, pat) && Text(fold, nam)
    ensures res <==> Terms(pat) <= recur && SkipAccepts(fold, pat, nam, skip0 % 256, skip0 >= 256)
    decreases recur, 1
  {
    hide Terms, Text, AcceptsFrom, Accepts;
    var n, skip := 0, skip0;
    ghost var q := skip0 % 256;
    while skip % 256 != 0
      invariant skip <= skip0 && skip / 256 == skip0 / 256 && n + skip % 256 == q && n <= |nam|
    {
      if n >= |nam| {
        forall k | q <= k ensures !AcceptsFrom(fold, pat, nam, k) { NotAcceptedBehind(fold, pat, nam, k); }
        return false;
      }
      n := n + 1;
      skip := skip - 1;
    }
    if pat == [] && skip != 0 {
      EmptyAtEnd(fold, nam);
      return true;
    }
    while true
      invariant q <= n <= |nam|
      invariant Terms(pat) <= recur ==> forall k :: q <= k < n ==> !AcceptsFrom(fold, pat, nam, k)
      invariant skip == 0 ==> n == q
      decreases |nam| - n
    {
      var stop, end;
      res, stop, end := TryAt(fold, pat, nam, n, recur);
      if res || stop { return; }
      n := n + 1;
      if skip == 0 || end { break; }
    }
  }

  lemma EmptyAtEnd(fold: nat -> nat, nam: seq<nat>)
    ensures AcceptsFrom(fold, [], nam, |nam|) && Terms([]) == 0
  {
  }

  /** The test of f_findnext: its answer for every pattern and name. For a pattern whose terms are short it is that the
      pattern matches and has no more terms than the recursion allows. */
  method Test(fold: nat -> nat, pat: seq<nat>, nam: seq<nat>) returns (res: bool)
    requires Text(fold, pat) && Text(fold, nam)
    ensures res <==> Answer(fold, pat, nam)
    ensures Short(pat) ==> (res <==> Matches(fold, pat, nam) && Terms(pat) <= MaxTerms)
  {
    hide Matches, Accepts, Short, Terms;
    assert nam[0..] == nam;
    res := PatternMatch(fold, pat, nam, 0, MaxTerms);
    if Short(pat) { AcceptsShort(fold, pat, nam); }
  }
}
