/** mg_match: glob matching that remembers only the last run wildcard. */
module Glob {
  import opened Bytes

  const ANY: Byte := 0x3f      // ?
  const STAR: Byte := 0x2a     // *
  const HASH: Byte := 0x23     // #
  const SLASH: Byte := 0x2f

  predicate IsRun(c: Byte) { c == STAR || c == HASH }

  /**
   * The meaning of a pattern: ? is any one character, * any run without a slash, # any run, and every
   * other character itself.
   */
  ghost predicate Matches(s: Str, p: Str)
    decreases |p|
  {
    if p == [] then s == []
    else if IsRun(p[0]) then
      exists k :: 0 <= k <= |s| && (p[0] == STAR ==> SLASH !in s[..k]) && Matches(s[k..], p[1..])
    else s != [] && (p[0] == ANY || p[0] == s[0]) && Matches(s[1..], p[1..])
  }

  /** The three wildcards alone: any one character, no slash, anything. */
  lemma WildcardsAlone(s: Str)
    ensures Matches(s, [0x3f]) <==> |s| == 1
    ensures Matches(s, [0x2a]) <==> 0x2f !in s
    ensures Matches(s, [0x23])
  {
    OneCharacter(s);
    RunAlone(s, STAR);
    RunAlone(s, HASH);
  }

  lemma OneCharacter(s: Str)
    ensures Matches(s, [ANY]) <==> |s| == 1
  {
    assert [ANY][1..] == [];
    if s != [] { assert Matches(s[1..], []) <==> |s| == 1; }
  }

  lemma RunAlone(s: Str, c: Byte)
    requires IsRun(c)
    ensures Matches(s, [c]) <==> (c == STAR ==> SLASH !in s)
  {
    var p := [c];
    assert p[1..] == [] && s[..|s|] == s && s[|s|..] == [];
    assert Matches(s[|s|..], p[1..]);
    if Matches(s, p) {
      var k :| 0 <= k <= |s| && (p[0] == STAR ==> SLASH !in s[..k]) && Matches(s[k..], p[1..]);
      assert s[k..] == [];
      assert k == |s|;
    }
  }

  /** The contract of mg_match: no wildcard characters in the subject, and no * over a subject with slashes. */
  ghost predicate Covered(s: Str, p: Str) {
    STAR !in s && HASH !in s && (STAR !in p || SLASH !in s)
  }

  /** Some later start of the text after the last wildcard works. */
  ghost predicate MatchesFrom(s: Str, k: nat, p: Str) {
    exists j :: k <= j <= |s| && Matches(s[j..], p)
  }

  predicate NoRun(q: Str) { forall d :: 0 <= d < |q| ==> !IsRun(q[d]) }

  /** A piece of text agrees character by character with a piece of pattern without run wildcards. */
  ghost predicate Agrees(t: Str, q: Str) {
    |t| == |q| && NoRun(q) && forall d :: 0 <= d < |q| ==> q[d] == ANY || q[d] == t[d]
  }

  lemma {:induction false} AgreeingPartCancels(t: Str, u: Str, q: Str, r: Str)
    requires Agrees(t, q)
    ensures Matches(t + u, q + r) <==> Matches(u, r)
    decreases |q|
  {
    if q == [] {
      assert t + u == u && q + r == r;
    } else {
      assert (t + u)[1..] == t[1..] + u && (q + r)[1..] == q[1..] + r;
      assert (t + u)[0] == t[0] && (q + r)[0] == q[0];
      AgreeingPartCancels(t[1..], u, q[1..], r);
    }
  }

  /** A match of a text starts with its leading part without run wildcards. */
  lemma {:induction false} MatchStarts(t: Str, q: Str, r: Str)
    requires NoRun(q) && Matches(t, q + r)
    ensures |q| <= |t| && Matches(t[|q|..], r)
    decreases |q|
  {
    if q == [] {
      assert q + r == r && t[0..] == t;
    } else {
      assert (q + r)[1..] == q[1..] + r && (q + r)[0] == q[0];
      MatchStarts(t[1..], q[1..], r);
      assert t[1..][|q| - 1..] == t[|q|..];
    }
  }

  /** The pattern piece between the wildcard at `ni` and `i` against the text from `start` to `j`. */
  ghost predicate Tried(s: Str, p: Str, ni: nat, start: nat, i: nat, j: nat): (r: bool)
    ensures r ==> ni < i <= |p| && start <= j <= |s| && j - start == i - ni - 1
  {
    ni < i <= |p| && start <= j <= |s| && Agrees(s[start..j], p[ni + 1..i])
  }

  lemma TriedCancels(s: Str, p: Str, ni: nat, start: nat, i: nat, j: nat)
    requires Tried(s, p, ni, start, i, j)
    ensures Matches(s[start..], p[ni + 1..]) <==> Matches(s[j..], p[i..])
  {
    hide Matches, Agrees;
    assert s[start..] == s[start..j] + s[j..] && p[ni + 1..] == p[ni + 1..i] + p[i..];
    AgreeingPartCancels(s[start..j], s[j..], p[ni + 1..i], p[i..]);
  }

  /** A run wildcard takes up any run: it matches exactly when something later matches the rest. */
  lemma RunMatches(s: Str, j: nat, p: Str, i: nat)
    requires Covered(s, p) && j <= |s| && i < |p| && IsRun(p[i])
    ensures Matches(s[j..], p[i..]) <==> MatchesFrom(s, j, p[i + 1..])
  {
    var t, q := s[j..], p[i..];
    assert q[1..] == p[i + 1..] && q[0] == p[i];
    if MatchesFrom(s, j, p[i + 1..]) {
      var m :| j <= m <= |s| && Matches(s[m..], p[i + 1..]);
      assert t[m - j..] == s[m..];
      NoSlash(s, p, j, m - j, p[i]);
    }
    if Matches(t, q) {
      var k :| 0 <= k <= |t| && Matches(t[k..], q[1..]);
      assert t[k..] == s[j + k..];
    }
  }

  lemma NoSlash(s: Str, p: Str, j: nat, k: nat, c: Byte)
    requires Covered(s, p) && c in p && j + k <= |s|
    ensures c == STAR ==> SLASH !in s[j..][..k]
  {
  }

  /** A later wildcard makes the earlier one's choice irrelevant: the earliest start is as good as any. */
  lemma LaterRunTakesOver(s: Str, p: Str, ni: nat, start: nat, i: nat, j: nat)
    requires Covered(s, p) && Tried(s, p, ni, start, i, j) && i < |p| && IsRun(p[i])
    ensures MatchesFrom(s, start, p[ni + 1..]) <==> MatchesFrom(s, j, p[i + 1..])
  {
    hide Matches, Covered, MatchesFrom, Tried;
    if MatchesFrom(s, start, p[ni + 1..]) {
      LaterStart(s, p, ni, start, i, j);
    }
    if MatchesFrom(s, j, p[i + 1..]) {
      RunMatches(s, j, p, i);
      TriedCancels(s, p, ni, start, i, j);
      WitnessFrom(s, start, p[ni + 1..]);
    }
  }

  lemma LaterStart(s: Str, p: Str, ni: nat, start: nat, i: nat, j: nat)
    requires Covered(s, p) && Tried(s, p, ni, start, i, j) && i < |p| && IsRun(p[i])
    requires MatchesFrom(s, start, p[ni + 1..])
    ensures MatchesFrom(s, j, p[i + 1..])
  {
    hide Matches, Covered;
    var m :| start <= m <= |s| && Matches(s[m..], p[ni + 1..]);
    assert p[ni + 1..] == p[ni + 1..i] + p[i..];
    MatchStarts(s[m..], p[ni + 1..i], p[i..]);
    var n := i - ni - 1;
    assert s[m..][n..] == s[m + n..];
    RunMatches(s, m + n, p, i);
  }

  /** When the text after the wildcard disagrees at (i, j), the start tried so far is no good. */
  lemma StartFails(s: Str, p: Str, ni: nat, start: nat, i: nat, j: nat)
    requires Tried(s, p, ni, start, i, j)
    requires i < |p| || j < |s|
    requires i < |p| ==> !IsRun(p[i])
    requires i < |p| && j < |s| ==> p[i] != ANY && p[i] != s[j]
    ensures !Matches(s[start..], p[ni + 1..])
  {
    hide Agrees;
    TriedCancels(s, p, ni, start, i, j);
    Disagrees(s, p, i, j);
  }

  /** At the end of the subject no later start helps either: the rest of the pattern needs too many characters. */
  lemma TooFewCharacters(s: Str, p: Str, ni: nat, start: nat, i: nat)
    requires Tried(s, p, ni, start, i, |s|) && i < |p| && !IsRun(p[i])
    ensures !MatchesFrom(s, start, p[ni + 1..])
  {
    if MatchesFrom(s, start, p[ni + 1..]) {
      var m :| start <= m <= |s| && Matches(s[m..], p[ni + 1..]);
      var q := p[ni + 1..i + 1];
      assert p[ni + 1..] == q + p[i + 1..] && q == p[ni + 1..i] + [p[i]];
      MatchStarts(s[m..], q, p[i + 1..]);
      assert false;
    }
  }

  lemma NextStart(s: Str, start: nat, p: Str)
    requires start <= |s| && !Matches(s[start..], p)
    ensures MatchesFrom(s, start, p) <==> MatchesFrom(s, start + 1, p)
  {
  }

  /** Reading s.ptr[j]; the code may look at the byte just past the subject. */
  function CharAt(s: Str, j: nat, past: Byte): Byte
    requires j <= |s|
  {
    if j < |s| then s[j] else past
  }

  /** The loop variables after a turn, or the answer. */
  datatype Turn = Go(i: nat, j: nat, ni: nat, nj: nat) | Answer(r: bool)

  predicate Fits(s: Str, p: Str, t: Turn) {
    t.Go? ==> t.i <= |p| && t.j <= |s| && (t.nj > 0 ==> t.ni < |p|)
  }

  /** One turn of the loop of mg_match, for any subject and pattern. */
  function NextTurn(s: Str, p: Str, past: Byte, t: Turn): (u: Turn)
    requires t.Go? && Fits(s, p, t)
    ensures Fits(s, p, u)
  {
    if t.i == |p| && t.j == |s| then Answer(true)
    else if t.i < |p| && t.j < |s| && (p[t.i] == ANY || s[t.j] == p[t.i]) then Go(t.i + 1, t.j + 1, t.ni, t.nj)
    else if t.i < |p| && IsRun(p[t.i]) then Go(t.i + 1, t.j, t.i, t.j + 1)
    else if 0 < t.nj <= |s| && (p[t.ni] == HASH || CharAt(s, t.j, past) != SLASH) then Go(t.ni, t.nj, t.ni, t.nj)
    else Answer(false)
  }

  const START: Turn := Go(0, 0, 0, 0)

  /** The loop variables, or the answer, after `n` turns. */
  function After(s: Str, p: Str, past: Byte, t: Turn, n: nat): (u: Turn)
    requires Fits(s, p, t)
    ensures Fits(s, p, u)
    decreases n
  {
    if n == 0 || t.Answer? then t else After(s, p, past, NextTurn(s, p, past, t), n - 1)
  }

  /** The loop of mg_match comes to an end. */
  ghost predicate Ends(s: Str, p: Str, past: Byte) {
    exists n: nat :: After(s, p, past, START, n).Answer?
  }

  /** It ends with this answer. */
  ghost predicate Answers(s: Str, p: Str, past: Byte, r: bool) {
    exists n: nat :: After(s, p, past, START, n) == Answer(r)
  }

  lemma {:induction false} AfterAdds(s: Str, p: Str, past: Byte, t: Turn, m: nat, n: nat)
    requires Fits(s, p, t)
    ensures After(s, p, past, t, m + n) == After(s, p, past, After(s, p, past, t, m), n)
    decreases m
  {
    hide NextTurn, Fits;
    if m > 0 && t.Go? {
      AfterAdds(s, p, past, NextTurn(s, p, past, t), m - 1, n);
    }
  }

  lemma OneMore(s: Str, p: Str, past: Byte, t: Turn, n: nat)
    requires Fits(s, p, t) && After(s, p, past, t, n).Go?
    ensures After(s, p, past, t, n + 1) == NextTurn(s, p, past, After(s, p, past, t, n))
  {
    hide NextTurn, Fits;
    AfterAdds(s, p, past, t, n, 1);
    var u := NextTurn(s, p, past, After(s, p, past, t, n));
    assert After(s, p, past, u, 0) == u;
  }

  /** There is one answer at most. */
  lemma AnswerIsUnique(s: Str, p: Str, past: Byte, t: Turn, m: nat, n: nat)
    requires Fits(s, p, t) && After(s, p, past, t, m).Answer? && After(s, p, past, t, n).Answer?
    ensures After(s, p, past, t, m) == After(s, p, past, t, n)
  {
    hide NextTurn, Fits;
    if m <= n {
      AfterAdds(s, p, past, t, m, n - m);
    } else {
      AfterAdds(s, p, past, t, n, m - n);
    }
  }

  /** With a * in the subject the loop can come back to a state it has been in: "a*c" against "*d". */
  lemma StarInSubjectCycles(past: Byte)
    ensures var s, p: Str := [0x61, STAR, 0x63], [STAR, 0x64];
      var t1 := NextTurn(s, p, past, Go(0, 0, 0, 0));
      t1 == Go(1, 0, 0, 1) &&
      var t2 := NextTurn(s, p, past, t1);
      t2 == Go(0, 1, 0, 1) &&
      var t3 := NextTurn(s, p, past, t2);
      t3 == Go(1, 2, 0, 1) && NextTurn(s, p, past, t3) == t2
  {
  }

  /** With slashes in the subject a * can take one up: "/a/b" is accepted for the pattern star, slash, b. */
  lemma StarCrossesSlash(past: Byte)
    ensures var s, p: Str := [SLASH, 0x61, SLASH, 0x62], [STAR, SLASH, 0x62];
      !Matches(s, p) &&
      NextTurn(s, p, past, Go(0, 0, 0, 0)) == Go(1, 0, 0, 1) &&
      NextTurn(s, p, past, Go(1, 0, 0, 1)) == Go(2, 1, 0, 1) &&
      NextTurn(s, p, past, Go(2, 1, 0, 1)) == Go(0, 1, 0, 1) &&
      NextTurn(s, p, past, Go(0, 1, 0, 1)) == Go(1, 1, 0, 2) &&
      NextTurn(s, p, past, Go(1, 1, 0, 2)) == Go(0, 2, 0, 2) &&
      NextTurn(s, p, past, Go(0, 2, 0, 2)) == Go(1, 2, 0, 3) &&
      NextTurn(s, p, past, Go(1, 2, 0, 3)) == Go(2, 3, 0, 3) &&
      NextTurn(s, p, past, Go(2, 3, 0, 3)) == Go(3, 4, 0, 3) &&
      NextTurn(s, p, past, Go(3, 4, 0, 3)) == Answer(true)
  {
    var s, p: Str := [SLASH, 0x61, SLASH, 0x62], [STAR, SLASH, 0x62];
    assert p[1..] == [SLASH, 0x62] && p[1..][1..] == [0x62];
    forall k | 0 < k <= |s| ensures SLASH in s[..k] {
      assert s[..k][0] == SLASH;
    }
    assert s[0..] == s && s[1..][0] == 0x61;
    assert !Matches(s[1..], [0x62]);
    assert !Matches(s, p[1..]);
  }

  /** mg_match without captures, wherever its loop ends: the answer is that of its turns. */
  method MgMatch(s: Str, p: Str, past: Byte, ghost turns: nat) returns (r: bool)
    requires After(s, p, past, START, turns).Answer?
    ensures After(s, p, past, START, turns) == Answer(r)
  {
    var i, j, ni, nj: nat := 0, 0, 0, 0;
    ghost var left := turns;
    while i < |p| || j < |s|
      invariant 0 <= i <= |p| && 0 <= j <= |s| && ni <= |p| && (nj > 0 ==> ni < |p|)
      invariant After(s, p, past, Go(i, j, ni, nj), left) == After(s, p, past, START, turns)
      decreases left
    {
      hide After;
      TurnLeft(s, p, past, Go(i, j, ni, nj), left);
      if i < |p| && j < |s| && (p[i] == ANY || s[j] == p[i]) {
        i, j := i + 1, j + 1;
      } else if i < |p| && (p[i] == STAR || p[i] == HASH) {
        ni := i;
        i := i + 1;
        nj := j + 1;
      } else if nj > 0 && nj <= |s| && (p[ni] == HASH || CharAt(s, j, past) != SLASH) {
        i, j := ni, nj;
      } else {
        AlreadyAnswered(s, p, past, false, left - 1);
        return false;
      }
      left := left - 1;
    }
    TurnLeft(s, p, past, Go(i, j, ni, nj), left);
    AlreadyAnswered(s, p, past, true, left - 1);
    return true;
  }

  lemma TurnLeft(s: Str, p: Str, past: Byte, t: Turn, left: nat)
    requires t.Go? && Fits(s, p, t) && After(s, p, past, t, left).Answer?
    ensures left > 0 && After(s, p, past, NextTurn(s, p, past, t), left - 1) == After(s, p, past, t, left)
  {
    hide NextTurn, Fits;
  }

  lemma AlreadyAnswered(s: Str, p: Str, past: Byte, r: bool, n: nat)
    ensures After(s, p, past, Answer(r), n) == Answer(r)
  {
  }

  /** For covered subjects and patterns the answer is the declarative one, whatever byte stands behind the subject. */
  lemma CoveredIsAnswered(s: Str, p: Str, past: Byte)
    requires Covered(s, p)
    ensures Answers(s, p, past, Matches(s, p))
  {
    hide Matches, Covered, MatchesFrom, Tried, After;
    var i, j, ni, nj: nat := 0, 0, 0, 0;
    var n: nat := 0;
    NoTurns(s, p, past);
    assert s[0..] == s && p[0..] == p;
    while i < |p| || j < |s|
      invariant 0 <= i <= |p| && 0 <= j <= |s| && 0 <= ni <= i
      invariant (nj > 0 ==> ni < |p|) && After(s, p, past, START, n) == Go(i, j, ni, nj)
      invariant nj == 0 ==> (Matches(s, p) <==> Matches(s[j..], p[i..]))
      // after a wildcard at ni, trying the start nj - 1 ...
      invariant nj > 0 ==> ni < |p| && IsRun(p[ni])
      invariant nj > 0 && i > ni ==>
        Tried(s, p, ni, nj - 1, i, j) && (Matches(s, p) <==> MatchesFrom(s, nj - 1, p[ni + 1..]))
      // ... or just sent back to it
      invariant nj > 0 && i == ni ==> j == nj && (Matches(s, p) <==> MatchesFrom(s, nj, p[ni + 1..]))
      decreases |p| - ni, |s| + 1 - nj, if nj == 0 || i > ni then 1 else 0, |s| - j
    {
      var turn := NextTurn(s, p, past, Go(i, j, ni, nj));
      OneMore(s, p, past, START, n);
      n := n + 1;
      if i < |p| && j < |s| && (p[i] == ANY || s[j] == p[i]) {
        NotRun(s, p, i, j);
        if nj == 0 {
          OneCancels(s, p, i, j);
        } else if i > ni {
          TriedOneMore(s, p, ni, nj - 1, i, j);
        }
        i, j := i + 1, j + 1;
      } else if i < |p| && (p[i] == STAR || p[i] == HASH) {
        if nj == 0 {
          RunMatches(s, j, p, i);
        } else if i > ni {
          LaterRunTakesOver(s, p, ni, nj - 1, i, j);
        }
        NothingTried(s, p, i, j);
        ni := i;
        i := i + 1;
        nj := j + 1;
      } else if nj > 0 && nj <= |s| && (p[ni] == HASH || CharAt(s, j, past) != SLASH) {
        StartFails(s, p, ni, nj - 1, i, j);
        NextStart(s, nj - 1, p[ni + 1..]);
        i, j := ni, nj;
      } else {
        if nj == 0 {
          Disagrees(s, p, i, j);
        } else {
          StartFails(s, p, ni, nj - 1, i, j);
          NextStart(s, nj - 1, p[ni + 1..]);
          if nj > |s| {
            NoStartLeft(s, nj, p[ni + 1..]);
          } else {
            SlashIsPast(s, p, ni, j);
            TooFewCharacters(s, p, ni, nj - 1, i);
          }
        }
        assert turn == Answer(false);
        return;
      }
      assert turn == Go(i, j, ni, nj);
    }
    OneMore(s, p, past, START, n);
    assert NextTurn(s, p, past, Go(i, j, ni, nj)) == Answer(true);
    if nj == 0 {
      EmptyMatches();
      assert s[j..] == [] && p[i..] == [];
    } else {
      TriedCancels(s, p, ni, nj - 1, i, j);
      EmptyMatches();
      assert s[j..] == [] && p[i..] == [];
      WitnessFrom(s, nj - 1, p[ni + 1..]);
    }
  }

  lemma NoTurns(s: Str, p: Str, past: Byte)
    ensures After(s, p, past, START, 0) == START
  {
  }

  lemma OneCancels(s: Str, p: Str, i: nat, j: nat)
    requires i < |p| && j < |s| && !IsRun(p[i]) && (p[i] == ANY || s[j] == p[i])
    ensures Matches(s[j..], p[i..]) <==> Matches(s[j + 1..], p[i + 1..])
  {
    assert s[j..][1..] == s[j + 1..] && p[i..][1..] == p[i + 1..];
  }

  lemma NothingTried(s: Str, p: Str, i: nat, j: nat)
    requires i < |p| && j <= |s|
    ensures Tried(s, p, i, j, i + 1, j)
  {
  }

  lemma TriedOneMore(s: Str, p: Str, ni: nat, start: nat, i: nat, j: nat)
    requires Tried(s, p, ni, start, i, j)
    requires i < |p| && j < |s| && !IsRun(p[i]) && (p[i] == ANY || s[j] == p[i])
    ensures Tried(s, p, ni, start, i + 1, j + 1)
  {
    assert s[start..j + 1] == s[start..j] + [s[j]] && p[ni + 1..i + 1] == p[ni + 1..i] + [p[i]];
  }

  lemma NotRun(s: Str, p: Str, i: nat, j: nat)
    requires Covered(s, p) && i < |p| && j < |s| && (p[i] == ANY || s[j] == p[i])
    ensures !IsRun(p[i])
  {
    assert s[j] in s;
  }

  lemma Disagrees(s: Str, p: Str, i: nat, j: nat)
    requires i <= |p| && j <= |s| && (i < |p| || j < |s|)
    requires i < |p| ==> !IsRun(p[i])
    requires i < |p| && j < |s| ==> p[i] != ANY && p[i] != s[j]
    ensures !Matches(s[j..], p[i..])
  {
    if i < |p| { assert p[i..][0] == p[i]; }
  }

  lemma NoStartLeft(s: Str, k: nat, p: Str)
    requires k > |s|
    ensures !MatchesFrom(s, k, p)
  {
  }

  /** The slash that stops a * can only be the byte past the subject. */
  lemma SlashIsPast(s: Str, p: Str, ni: nat, j: nat)
    requires Covered(s, p) && ni < |p| && p[ni] == STAR && j <= |s|
    ensures j < |s| ==> s[j] != SLASH
  {
    assert p[ni] in p;
    if j < |s| { assert s[j] in s; }
  }

  lemma EmptyMatches()
    ensures Matches([], [])
  {
  }

  lemma WitnessFrom(s: Str, k: nat, p: Str)
    requires k <= |s| && Matches(s[k..], p)
    ensures MatchesFrom(s, k, p)
  {
  }
}
