/** Where mg_match ends, and where its answer is the declarative one: exact conditions on the subject. */
module GlobLimits {
  import opened Bytes
  import opened Glob

  // ----- termination -----

  /** No * or # stands directly behind a different character. */
  predicate Tame(s: Str) {
    forall k :: 0 < k < |s| && IsRun(s[k]) ==> s[k - 1] == s[k]
  }

  /** A start that has been tried does not begin with the wildcard itself. */
  predicate FreshStart(s: Str, p: Str, t: Turn) {
    t.Go? && Fits(s, p, t) && t.ni <= t.i &&
    (t.nj > 0 ==> IsRun(p[t.ni]) && t.nj <= |s| + 1 && (t.nj <= |s| ==> s[t.nj - 1] != p[t.ni]) &&
                  (t.i == t.ni ==> t.j == t.nj))
  }

  /** On a tame subject the wildcard is not taken for a character after a return to it: every return makes progress. */
  lemma TurnProgresses(s: Str, p: Str, past: Byte, t: Turn)
    requires Tame(s) && FreshStart(s, p, t)
    ensures var u := NextTurn(s, p, past, t);
      u.Go? ==> FreshStart(s, p, u) && Progress(t, u)
  {
    if t.nj > 0 && t.nj < |s| {
      assert IsRun(s[t.nj]) ==> s[t.nj - 1] == s[t.nj];
    }
  }

  /** A later wildcard, or a later start, or the return just made followed up, or a character further. */
  predicate Progress(t: Turn, u: Turn)
    requires t.Go? && u.Go?
  {
    u.ni > t.ni || (u.ni == t.ni && u.nj > t.nj) ||
    (u.ni == t.ni && u.nj == t.nj && (Flag(u) < Flag(t) || (Flag(u) == Flag(t) && u.j > t.j)))
  }

  function Flag(t: Turn): nat
    requires t.Go?
  {
    if t.nj == 0 || t.i > t.ni then 1 else 0
  }

  lemma {:induction false} TameEnds(s: Str, p: Str, past: Byte, t: Turn) returns (n: nat)
    requires Tame(s) && FreshStart(s, p, t)
    ensures After(s, p, past, t, n).Answer?
    decreases |p| - t.ni, |s| + 1 - t.nj, Flag(t), |s| - t.j
  {
    hide NextTurn, Tame;
    TurnProgresses(s, p, past, t);
    var u := NextTurn(s, p, past, t);
    n := 1;
    if u.Go? {
      n := TameEnds(s, p, past, u);
      n := n + 1;
    }
  }

  /** A text of question marks, longer than the subject, behind the wildcard: it is always too long. */
  function Questions(n: nat): (r: Str)
    ensures |r| == n && NoRun(r) && forall d :: 0 <= d < n ==> r[d] == ANY
  {
    seq(n, i => ANY)
  }

  /** The pattern that leads mg_match to try the wildcard at `k` of the subject again and again. */
  function Trap(s: Str, k: nat): (r: Str)
    requires 0 < k < |s|
  {
    Questions(k - 1) + [s[k]] + Questions(|s| + 1)
  }

  predicate Trapped(s: Str, k: nat, t: Turn) {
    t.Go? && t.j <= |s| &&
    (if t.nj == 0 then t.ni == 0 && t.i == t.j <= k - 1
     else t.ni == k - 1 && t.nj == k && k - 1 <= t.i <= t.j + 1 && (t.i == k - 1 ==> t.j == k))
  }

  lemma TrapHolds(s: Str, k: nat, past: Byte, t: Turn)
    requires 0 < k < |s| && IsRun(s[k]) && s[k - 1] != s[k] && past != SLASH && Trapped(s, k, t)
    ensures var p := Trap(s, k);
      Fits(s, p, t) && Trapped(s, k, NextTurn(s, p, past, t))
  {
    var p := Trap(s, k);
    assert p[k - 1] == s[k] && |p| == k + |s| + 1;
    assert forall i :: 0 <= i < |p| && i != k - 1 ==> p[i] == ANY;
  }

  lemma {:induction false} TrappedForever(s: Str, k: nat, past: Byte, t: Turn, n: nat)
    requires 0 < k < |s| && IsRun(s[k]) && s[k - 1] != s[k] && past != SLASH && Trapped(s, k, t)
    ensures Fits(s, Trap(s, k), t) && After(s, Trap(s, k), past, t, n).Go?
    decreases n
  {
    hide Trap, NextTurn, Fits, Trapped;
    TrapHolds(s, k, past, t);
    assert t.Go? by { IsGo(s, k, t); }
    if n > 0 {
      TrappedForever(s, k, past, NextTurn(s, Trap(s, k), past, t), n - 1);
    }
  }

  lemma IsGo(s: Str, k: nat, t: Turn)
    requires Trapped(s, k, t)
    ensures t.Go?
  {
  }

  /** mg_match ends for every pattern and every byte behind the subject exactly if the subject is tame. */
  lemma AlwaysEndsIffTame(s: Str)
    ensures (forall p, past :: Ends(s, p, past)) <==> Tame(s)
  {
    if Tame(s) {
      forall p, past ensures Ends(s, p, past) {
        var n := TameEnds(s, p, past, START);
      }
    } else {
      var k :| 0 < k < |s| && IsRun(s[k]) && s[k - 1] != s[k];
      forall n: nat ensures After(s, Trap(s, k), 0, START, n).Go? {
        TrappedForever(s, k, 0, START, n);
      }
      assert !Ends(s, Trap(s, k), 0);
    }
  }

  // ----- every pattern -----

  predicate Plain(s: Str) { STAR !in s && HASH !in s }

  /** The pattern #* matches every subject. */
  lemma HashStarMatches(s: Str)
    ensures Matches(s, [HASH, STAR])
  {
    assert [HASH, STAR][1..] == [STAR] && [STAR][1..] == [];
    assert s[|s|..] == [];
    EmptyMatches();
    var empty: Str := [];
    assert empty[0..] == [];
    assert Matches(empty, [STAR]);
    assert Matches(s[|s|..], [STAR]);
  }

  /** But mg_match stops at the first slash, having forgotten the #. */
  lemma {:induction false} HashStarStops(s: Str, k: nat, j: nat, past: Byte) returns (n: nat)
    requires Plain(s) && k < |s| && s[k] == SLASH && SLASH !in s[..k] && j <= k
    ensures After(s, [HASH, STAR], past, Go(2, j, 1, j + 1), n) == Answer(false)
    decreases k - j
  {
    var p := [HASH, STAR];
    var t := Go(2, j, 1, j + 1);
    if j == k {
      n := 1;
      AlreadyAnswered(s, p, past, false, 0);
    } else {
      assert s[j] in s[..k] && s[j + 1] in s;
      var u, v := Go(1, j + 1, 1, j + 1), Go(2, j + 1, 1, j + 2);
      assert NextTurn(s, p, past, t) == u && NextTurn(s, p, past, u) == v;
      n := HashStarStops(s, k, j + 1, past);
      assert After(s, p, past, u, n + 1) == Answer(false);
      n := n + 2;
    }
  }

  lemma FirstSlash(s: Str) returns (k: nat)
    requires SLASH in s
    ensures k < |s| && s[k] == SLASH && SLASH !in s[..k]
  {
    k := 0;
    while s[k] != SLASH
      invariant k < |s| && SLASH !in s[..k] && SLASH in s[k..]
      decreases |s| - k
    {
      assert s[..k + 1] == s[..k] + [s[k]] && s[k..] == [s[k]] + s[k + 1..];
      k := k + 1;
    }
  }

  lemma HashStarIsRefused(s: Str, past: Byte)
    requires Plain(s) && SLASH in s
    ensures Answers(s, [HASH, STAR], past, false)
  {
    var p := [HASH, STAR];
    var k := FirstSlash(s);
    var n := HashStarStops(s, k, 0, past);
    assert s[0] in s;
    assert NextTurn(s, p, past, START) == Go(1, 0, 0, 1) && NextTurn(s, p, past, Go(1, 0, 0, 1)) == Go(2, 0, 1, 1);
    assert After(s, p, past, Go(1, 0, 0, 1), n + 1) == Answer(false);
    assert After(s, p, past, START, n + 2) == Answer(false);
  }

  lemma NotBoth(s: Str, p: Str, past: Byte, r: bool)
    requires Answers(s, p, past, r)
    ensures !Answers(s, p, past, !r)
  {
    var m: nat :| After(s, p, past, START, m) == Answer(r);
    forall n: nat ensures After(s, p, past, START, n) != Answer(!r) {
      if After(s, p, past, START, n).Answer? {
        AnswerIsUnique(s, p, past, START, m, n);
      }
    }
  }

  ghost predicate Right(s: Str, p: Str, past: Byte) { Answers(s, p, past, Matches(s, p)) }

  /** A subject without wildcard characters gets the declarative answer for every pattern exactly if it has no slash. */
  lemma RightForEveryPatternIff(s: Str)
    requires Plain(s)
    ensures (forall p, past :: Right(s, p, past)) <==> SLASH !in s
  {
    if SLASH in s {
      HashStarMatches(s);
      HashStarIsRefused(s, 0);
      NotBoth(s, [HASH, STAR], 0, false);
      assert !Right(s, [HASH, STAR], 0);
    } else {
      forall p, past ensures Right(s, p, past) {
        CoveredIsAnswered(s, p, past);
      }
    }
  }

  // ----- patterns without # -----

  predicate OnlySlashes(s: Str) { forall k :: 0 <= k < |s| ==> s[k] == SLASH }

  /** How many characters the pattern needs from `i` on. */
  function Need(p: Str, i: nat): nat
    requires i <= |p|
    decreases |p| - i
  {
    if i == |p| then 0 else (if IsRun(p[i]) then 0 else 1) + Need(p, i + 1)
  }

  /** The rest of the pattern is too long, here and at the start to return to. */
  predicate TooLong(s: Str, p: Str, t: Turn) {
    Fits(s, p, t) && (t.Go? ==> Need(p, t.i) > |s| - t.j && (t.nj > 0 ==> Need(p, t.ni) > |s| - t.nj))
  }

  lemma TooLongStays(s: Str, p: Str, past: Byte, t: Turn)
    requires Plain(s) && t.Go? && TooLong(s, p, t)
    ensures TooLong(s, p, NextTurn(s, p, past, t)) && NextTurn(s, p, past, t) != Answer(true)
  {
    if t.i < |p| && t.j < |s| && s[t.j] == p[t.i] {
      assert s[t.j] in s;
    }
  }

  lemma {:induction false} TooLongIsNotTrue(s: Str, p: Str, past: Byte, t: Turn, n: nat)
    requires Plain(s) && t.Go? && TooLong(s, p, t)
    ensures After(s, p, past, t, n) != Answer(true)
    decreases n
  {
    hide NextTurn, TooLong;
    assert Fits(s, p, t) by { TooLongFits(s, p, t); }
    if n > 0 {
      TooLongStays(s, p, past, t);
      var u := NextTurn(s, p, past, t);
      if u.Go? {
        TooLongIsNotTrue(s, p, past, u, n - 1);
      }
    }
  }

  lemma TooLongFits(s: Str, p: Str, t: Turn)
    requires TooLong(s, p, t)
    ensures Fits(s, p, t)
  {
  }

  lemma PlainIsTame(s: Str)
    requires Plain(s)
    ensures Tame(s)
  {
    forall k | 0 < k < |s| ensures !IsRun(s[k]) {
      assert s[k] in s;
    }
  }

  /** The literal text since the last wildcard has taken one character each. */
  predicate Aligned(s: Str, p: Str, t: Turn) {
    FreshStart(s, p, t) && (t.nj > 0 ==> t.nj <= t.j + 1 && Need(p, t.ni) == Need(p, t.i) + (t.j + 1 - t.nj))
  }

  /** Among slashes a * takes nothing, and mg_match does not let it: every answer is the declarative one. */
  lemma {:induction false} SlashesAnswered(s: Str, p: Str, past: Byte, t: Turn) returns (n: nat)
    requires OnlySlashes(s) && HASH !in p && Aligned(s, p, t)
    ensures After(s, p, past, t, n) == Answer(Matches(s[t.j..], p[t.i..]))
    decreases |p| - t.i
  {
    hide Matches;
    SlashesPlain(s);
    var u := NextTurn(s, p, past, t);
    if u.Answer? {
      n := 1;
      AnsweredAmongSlashes(s, p, past, t);
      assert After(s, p, past, u, 0) == u;
    } else if u.i > t.i {
      StepAmongSlashes(s, p, past, t);
      n := SlashesAnswered(s, p, past, u);
      n := n + 1;
    } else {
      n := ReturnAmongSlashes(s, p, past, t);
    }
  }

  lemma SlashesPlain(s: Str)
    requires OnlySlashes(s)
    ensures Plain(s)
  {
  }

  lemma StepAmongSlashes(s: Str, p: Str, past: Byte, t: Turn)
    requires OnlySlashes(s) && HASH !in p && Aligned(s, p, t)
    requires var u := NextTurn(s, p, past, t);
      u.Go? && u.i > t.i
    ensures var u := NextTurn(s, p, past, t);
      Aligned(s, p, u) && (Matches(s[t.j..], p[t.i..]) <==> Matches(s[u.j..], p[u.i..]))
  {
    var u := NextTurn(s, p, past, t);
    var a, b := s[t.j..], p[t.i..];
    assert b[1..] == p[t.i + 1..];
    if u.j == t.j + 1 {
      assert a[1..] == s[u.j..];
    } else {
      assert b[0] in p && b[0] == STAR;
      assert a[0..] == a && a[..0] == [];
      forall k | 0 < k <= |a| ensures SLASH in a[..k] {
        assert a[..k][0] == SLASH;
      }
    }
  }

  lemma AnsweredAmongSlashes(s: Str, p: Str, past: Byte, t: Turn)
    requires OnlySlashes(s) && HASH !in p && Aligned(s, p, t) && NextTurn(s, p, past, t).Answer?
    ensures NextTurn(s, p, past, t) == Answer(Matches(s[t.j..], p[t.i..]))
  {
    if t.i < |p| {
      assert p[t.i..][0] == p[t.i];
    }
  }

  lemma ReturnAmongSlashes(s: Str, p: Str, past: Byte, t: Turn) returns (n: nat)
    requires OnlySlashes(s) && HASH !in p && Aligned(s, p, t)
    requires var u := NextTurn(s, p, past, t);
      u.Go? && u.i <= t.i
    ensures After(s, p, past, t, n) == Answer(Matches(s[t.j..], p[t.i..]))
  {
    SlashesPlain(s);
    PlainIsTame(s);
    assert t.nj > 0 && p[t.ni] in p;
    assert t.j == |s| && t.i < |p| && !IsRun(p[t.i]);
    assert !Matches(s[t.j..], p[t.i..]) by { assert p[t.i..][0] == p[t.i]; }
    assert TooLong(s, p, t);
    n := TameEnds(s, p, past, t);
    TooLongIsNotTrue(s, p, past, t, n);
  }

  // a subject with a slash and another character

  lemma {:induction false} QuestionsMatch(t: Str, n: nat)
    ensures Matches(t, Questions(n)) <==> |t| == n
    decreases n
  {
    var q := Questions(n);
    if n > 0 {
      assert q[1..] == Questions(n - 1);
      if t != [] {
        QuestionsMatch(t[1..], n - 1);
      }
    }
  }

  /** At `k` the * has to take exactly one character. */
  function Probe(s: Str, k: nat): Str
    requires k < |s|
  {
    Questions(k) + [STAR] + Questions(|s| - k - 1)
  }

  lemma ProbeMeans(s: Str, k: nat)
    requires k < |s|
    ensures Matches(s, Probe(s, k)) <==> s[k] != SLASH
  {
    hide Matches, Questions;
    var rest := [STAR] + Questions(|s| - k - 1);
    assert Probe(s, k) == Questions(k) + rest && s == s[..k] + s[k..];
    AgreeingPartCancels(s[..k], s[k..], Questions(k), rest);
    StarTakesOne(s[k..]);
  }

  lemma StarTakesOne(u: Str)
    requires u != []
    ensures Matches(u, [STAR] + Questions(|u| - 1)) <==> u[0] != SLASH
  {
    hide Questions;
    var rest := [STAR] + Questions(|u| - 1);
    assert rest[1..] == Questions(|u| - 1);
    forall d | 0 <= d <= |u| ensures Matches(u[d..], rest[1..]) <==> d == 1 {
      QuestionsMatch(u[d..], |u| - 1);
    }
    assert u[..1] == [u[0]];
    if u[0] != SLASH {
      assert Matches(u[1..], rest[1..]);
    }
  }

  /** A run of question marks is walked through. */
  lemma {:induction false} WalkQuestions(s: Str, p: Str, past: Byte, t: Turn, m: nat)
    requires t.Go? && Fits(s, p, t) && t.i + m <= |p| && t.j + m <= |s|
    requires forall d :: t.i <= d < t.i + m ==> p[d] == ANY
    ensures After(s, p, past, t, m) == Go(t.i + m, t.j + m, t.ni, t.nj)
    decreases m
  {
    if m > 0 {
      WalkQuestions(s, p, past, Go(t.i + 1, t.j + 1, t.ni, t.nj), m - 1);
    }
  }

  /** mg_match decides the probe by the last character of the subject instead of the one taken. */
  lemma ProbeAnswered(s: Str, k: nat, past: Byte)
    requires Plain(s) && k < |s| - 1
    ensures Answers(s, Probe(s, k), past, s[|s| - 1] != SLASH)
  {
    var p, m := Probe(s, k), |s| - k - 1;
    assert s[k] in s && s[k + 1] in s;
    WalkQuestions(s, p, past, START, k);
    var a := Go(k, k, 0, 0);
    var b := Go(k + 1, k, k, k + 1);
    assert NextTurn(s, p, past, a) == b;
    WalkQuestions(s, p, past, b, m);
    var c := Go(|p|, |s| - 1, k, k + 1);
    OneMore(s, p, past, START, k);
    AfterAdds(s, p, past, START, k + 1, m);
    assert After(s, p, past, START, k + 1 + m) == c;
    OneMore(s, p, past, START, k + 1 + m);
    if s[|s| - 1] != SLASH {
      SecondTry(s, k, past);
    } else {
      assert NextTurn(s, p, past, c) == Answer(false);
    }
  }

  lemma SecondTry(s: Str, k: nat, past: Byte)
    requires Plain(s) && k < |s| - 1 && s[|s| - 1] != SLASH
    requires After(s, Probe(s, k), past, START, |s| + 1) == Go(k, k + 1, k, k + 1)
    ensures Answers(s, Probe(s, k), past, true)
  {
    var p, m := Probe(s, k), |s| - k - 1;
    assert s[k + 1] in s;
    var e := Go(k + 1, k + 1, k, k + 2);
    assert NextTurn(s, p, past, Go(k, k + 1, k, k + 1)) == e;
    OneMore(s, p, past, START, |s| + 1);
    WalkQuestions(s, p, past, e, m);
    AfterAdds(s, p, past, START, |s| + 2, m);
    OneMore(s, p, past, START, |s| + 2 + m);
  }

  ghost predicate RightWithoutHash(s: Str) {
    forall p, past :: HASH !in p ==> Right(s, p, past)
  }

  lemma ProbeIsWrong(s: Str, k: nat)
    requires Plain(s) && k < |s| - 1 && (s[k] == SLASH) != (s[|s| - 1] == SLASH)
    ensures !RightWithoutHash(s)
  {
    ProbeMeans(s, k);
    ProbeAnswered(s, k, 0);
    var p := Probe(s, k);
    assert HASH !in p;
    NotBoth(s, p, 0, s[|s| - 1] != SLASH);
    assert !Right(s, p, 0);
  }

  /**
   * With patterns that have no #, a subject without wildcard characters gets the declarative answer for every
   * pattern exactly if it has no slash, or nothing but slashes.
   */
  lemma RightWithoutHashIff(s: Str)
    requires Plain(s)
    ensures RightWithoutHash(s) <==> SLASH !in s || OnlySlashes(s)
  {
    if SLASH !in s {
      RightForEveryPatternIff(s);
    } else if OnlySlashes(s) {
      forall p, past | HASH !in p ensures Right(s, p, past) {
        assert s[0..] == s && p[0..] == p;
        var n := SlashesAnswered(s, p, past, START);
      }
    } else {
      var a :| 0 <= a < |s| && s[a] == SLASH;
      var b :| 0 <= b < |s| && s[b] != SLASH;
      ProbeIsWrong(s, if s[|s| - 1] == SLASH then b else a);
    }
  }
}
