/**
 The glob matcher of the metrics server's URI dispatch: one pass over pattern and subject
 with a single place to go back to.  Going back only to the last `#` is enough, as long as a
 `#` of the pattern never meets one in the subject.
 */
module Glob {
  /** `?` stands for any one character, `#` for any run of characters, anything else for itself. */
  ghost predicate Matches(p: string, s: string)
    decreases |p|
  {
    if p == "" then s == ""
    else if p[0] == '#' then exists k: nat :: k <= |s| && Matches(p[1..], s[k..])
    else s != "" && (p[0] == '?' || p[0] == s[0]) && Matches(p[1..], s[1..])
  }

  /** What is left of the pattern from `i` matches what is left of the subject from `j`. */
  ghost predicate Rest(p: string, i: nat, s: string, j: nat) {
    i <= |p| && j <= |s| && Matches(p[i..], s[j..])
  }

  /** A run may take nothing, or one character more. */
  lemma TakeRun(p: string, i: nat, s: string, j: nat)
    requires i < |p| && p[i] == '#' && j <= |s|
    ensures Rest(p, i, s, j) <==> Rest(p, i + 1, s, j) || Rest(p, i, s, j + 1)
  {
    assert p[i..][1..] == p[i + 1..];
    assert s[j..][0..] == s[j..];
    if Rest(p, i, s, j) {
      var k: nat :| k <= |s[j..]| && Matches(p[i..][1..], s[j..][k..]);
      if k > 0 {
        assert s[j..][k..] == s[j + 1..][k - 1..];
      }
    }
    if Rest(p, i, s, j + 1) {
      var k: nat :| k <= |s[j + 1..]| && Matches(p[i..][1..], s[j + 1..][k..]);
      assert s[j..][k + 1..] == s[j + 1..][k..];
    }
  }

  lemma TakeOne(p: string, i: nat, s: string, j: nat)
    requires i < |p| && p[i] != '#' && j <= |s|
    ensures Rest(p, i, s, j) <==> j < |s| && (p[i] == '?' || p[i] == s[j]) && Rest(p, i + 1, s, j + 1)
  {
    assert p[i..][1..] == p[i + 1..];
    if j < |s| { assert s[j..][1..] == s[j + 1..]; }
  }

  lemma AtEnd(p: string, s: string, j: nat)
    requires j <= |s|
    ensures Rest(p, |p|, s, j) <==> j == |s|
  {
  }

  /** A run that matches from further on matches from here as well. */
  lemma {:induction false} RunAbsorbs(p: string, i: nat, s: string, j: nat, j': nat)
    requires i < |p| && p[i] == '#' && j <= j' && Rest(p, i, s, j')
    ensures Rest(p, i, s, j)
    decreases j' - j
  {
    if j < j' {
      TakeRun(p, i, s, j' - 1);
      RunAbsorbs(p, i, s, j, j' - 1);
    }
  }

  /** A stretch of pattern without runs takes as many characters as it has. */
  lemma {:induction false} Stretch(p: string, i: nat, i': nat, s: string, j: nat)
    requires i <= i' <= |p| && (forall k | i <= k < i' :: p[k] != '#') && Rest(p, i, s, j)
    ensures Rest(p, i', s, j + (i' - i))
    decreases i' - i
  {
    if i < i' {
      TakeOne(p, i, s, j);
      Stretch(p, i + 1, i', s, j + 1);
    }
  }

  /** Starting the last run later, the next one is met later too: going back further gains nothing. */
  lemma {:induction false} OnlyTheLastRun(p: string, n: nat, i: nat, s: string, from: nat, j: nat)
    requires n < i < |p| && p[n] == '#' && p[i] == '#' && (forall k | n < k < i :: p[k] != '#')
    requires Rest(p, n, s, from) && j <= from + (i - n - 1)
    ensures Rest(p, i, s, j)
    decreases |s| - from
  {
    TakeRun(p, n, s, from);
    if Rest(p, n + 1, s, from) {
      Stretch(p, n + 1, i, s, from);
      RunAbsorbs(p, i, s, j, from + (i - n - 1));
    } else {
      OnlyTheLastRun(p, n, i, s, from + 1, j);
    }
  }

  /** Positions in pattern and subject, and where to go back to; `nj` is 0 when nowhere. */
  datatype State = State(i: nat, j: nat, ni: nat, nj: nat)

  /** The matched part since the last run, or the run about to be taken again. */
  predicate Shape(p: string, g: State) {
    && g.ni < |p| && p[g.ni] == '#' && g.ni <= g.i <= |p|
    && (if g.i == g.ni then g.j == g.nj else g.j + 2 == g.nj + (g.i - g.ni))
    && (forall k | g.ni < k < g.i :: p[k] != '#')
  }

  /** The subject matches if and only if it matches from here or from the way back. */
  ghost predicate Invariant(p: string, s: string, g: State) {
    && g.i <= |p| && g.j <= |s|
    && (if g.nj == 0 then g.ni == 0 && (Matches(p, s) <==> Rest(p, g.i, s, g.j))
        else Shape(p, g) && (Matches(p, s) <==> Rest(p, g.i, s, g.j) || Rest(p, g.ni, s, g.nj)))
  }

  lemma AdvanceKeeps(p: string, s: string, g: State)
    requires Invariant(p, s, g) && g.i < |p| && g.j < |s| && p[g.i] != '#' && (p[g.i] == '?' || s[g.j] == p[g.i])
    ensures Invariant(p, s, g.(i := g.i + 1, j := g.j + 1))
  {
    hide Rest, Matches;
    TakeOne(p, g.i, s, g.j);
  }

  lemma RunKeeps(p: string, s: string, g: State)
    requires Invariant(p, s, g) && g.i < |p| && p[g.i] == '#'
    ensures Invariant(p, s, State(g.i + 1, g.j, g.i, g.j + 1))
  {
    hide Rest, Matches;
    TakeRun(p, g.i, s, g.j);
    if g.nj > 0 && g.ni < g.i && Rest(p, g.ni, s, g.nj) {
      OnlyTheLastRun(p, g.ni, g.i, s, g.nj, g.j);
    }
  }

  /** Neither advancing nor a run: from here there is no match. */
  lemma NoMatchHere(p: string, s: string, g: State)
    requires g.i <= |p| && g.j <= |s| && (g.i < |p| || g.j < |s|)
    requires !(g.i < |p| && g.j < |s| && (p[g.i] == '?' || s[g.j] == p[g.i]))
    requires !(g.i < |p| && p[g.i] == '#')
    ensures !Rest(p, g.i, s, g.j)
  {
    hide Rest, Matches;
    if g.i < |p| { TakeOne(p, g.i, s, g.j); } else { AtEnd(p, s, g.j); }
  }

  // ---------------------------------------------------------------------------------------
  // The loop, turn by turn
  // ---------------------------------------------------------------------------------------

  const START: State := State(0, 0, 0, 0)

  datatype Turn = Stop(ok: bool) | Go(next: State)

  predicate In(p: string, s: string, g: State) { g.i <= |p| && g.j <= |s| && g.ni <= |p| }

  /** One turn of the loop on patterns without `*`. */
  function Step(p: string, s: string, g: State): (t: Turn)
    requires In(p, s, g)
    ensures t.Go? ==> In(p, s, t.next)
  {
    if g.i == |p| && g.j == |s| then Stop(true)
    else if g.i < |p| && g.j < |s| && (p[g.i] == '?' || s[g.j] == p[g.i]) then Go(g.(i := g.i + 1, j := g.j + 1))
    else if g.i < |p| && p[g.i] == '#' then Go(State(g.i + 1, g.j, g.i, g.j + 1))
    else if 0 < g.nj <= |s| then Go(g.(i := g.ni, j := g.nj))
    else Stop(false)
  }

  /** At most `n` turns. */
  function Runs(p: string, s: string, g: State, n: nat): Turn
    requires In(p, s, g)
    decreases n
  {
    if n == 0 then Go(g) else
    var t := Step(p, s, g);
    if t.Stop? then t else Runs(p, s, t.next, n - 1)
  }

  /** The loop ends, and with the right answer. */
  ghost predicate Decides(p: string, s: string) {
    exists n: nat :: Runs(p, s, START, n) == Stop(Matches(p, s))
  }

  /** From any state that keeps the invariant, the loop ends with the right answer. */
  lemma {:induction false} EndsRight(p: string, s: string, g: State) returns (n: nat)
    requires '#' !in p || '#' !in s
    requires Invariant(p, s, g) && g.nj <= |s| + 1
    ensures Runs(p, s, g, n) == Stop(Matches(p, s))
    decreases |p| - g.ni, |s| + 1 - g.nj, if g.nj > 0 && g.i == g.ni then 0 else 1, |p| - g.i
  {
    hide Matches, Rest;
    n := 0;
    if g.i == |p| && g.j == |s| {
      AtEnd(p, s, g.j);
    } else if g.i < |p| && g.j < |s| && (p[g.i] == '?' || s[g.j] == p[g.i]) {
      AdvanceKeeps(p, s, g);
      n := EndsRight(p, s, g.(i := g.i + 1, j := g.j + 1));
    } else if g.i < |p| && p[g.i] == '#' {
      RunKeeps(p, s, g);
      n := EndsRight(p, s, State(g.i + 1, g.j, g.i, g.j + 1));
    } else {
      NoMatchHere(p, s, g);
      if 0 < g.nj <= |s| {
        n := EndsRight(p, s, g.(i := g.ni, j := g.nj));
      } else {
        PastTheEnd(p, s, g.ni, g.nj);
      }
    }
    n := n + 1;
  }

  lemma FromStart(p: string, s: string)
    ensures Invariant(p, s, START)
  {
    assert p[0..] == p && s[0..] == s;
  }

  lemma PastTheEnd(p: string, s: string, i: nat, j: nat)
    ensures j > |s| ==> !Rest(p, i, s, j)
  {
  }

  /**
   The matching loop decides the relation for every pattern without `*`, as long as not both
   pattern and subject contain a `#`.
   */
  method GlobMatch(s1: string, s2: string) returns (ok: bool)
    requires '*' !in s1 && ('#' !in s1 || '#' !in s2)
    ensures ok <==> Matches(s1, s2)
  {
    hide Matches;
    var i, j, ni, nj := 0, 0, 0, 0;
    FromStart(s1, s2);
    ghost var turns := EndsRight(s1, s2, START);
    while i < |s1| || j < |s2|
      invariant In(s1, s2, State(i, j, ni, nj))
      invariant Runs(s1, s2, State(i, j, ni, nj), turns) == Stop(Matches(s1, s2))
      decreases turns
    {
      ghost var g := State(i, j, ni, nj);
      if i < |s1| && j < |s2| && (s1[i] == '?' || s2[j] == s1[i]) {
        i, j := i + 1, j + 1;
      } else if i < |s1| && (s1[i] == '*' || s1[i] == '#') {
        ni, nj, i := i, j + 1, i + 1;
      } else if nj > 0 && nj <= |s2| {
        // Only for a `*` would the character of the subject matter here.
        i, j := ni, nj;
      } else {
        return false;
      }
      assert Step(s1, s2, g) == Go(State(i, j, ni, nj));
      turns := turns - 1;
    }
    return true;
  }

  // ---------------------------------------------------------------------------------------
  // A `#` on both sides
  // ---------------------------------------------------------------------------------------

  /** Once the loop has ended, its answer stands. */
  lemma {:induction false} AnswerStands(p: string, s: string, g: State, n: nat, m: nat)
    requires In(p, s, g) && n <= m && Runs(p, s, g, n).Stop?
    ensures Runs(p, s, g, m) == Runs(p, s, g, n)
    decreases n
  {
    var t := Step(p, s, g);
    if t.Go? { AnswerStands(p, s, t.next, n - 1, m - 1); }
  }

  lemma WrongAnswer(p: string, s: string, n: nat)
    requires Runs(p, s, START, n) == Stop(false) && Matches(p, s)
    ensures !Decides(p, s)
  {
    hide Matches, Runs;
    forall m: nat ensures Runs(p, s, START, m) != Stop(true) {
      if Runs(p, s, START, m).Stop? {
        AnswerStands(p, s, START, if n < m then n else m, if n < m then m else n);
      }
    }
  }

  /** Where pattern and subject agree, the loop goes straight on; a `#` is taken literally. */
  lemma {:induction false} Straight(p: string, s: string, i: nat, to: nat, n: nat)
    requires i <= to <= |p| && to <= |s| && forall k | i <= k < to :: p[k] == '?' || p[k] == s[k]
    ensures Runs(p, s, State(i, i, 0, 0), to - i + n) == Runs(p, s, State(to, to, 0, 0), n)
    decreases |p| - i
  {
    if i < to { Straight(p, s, i + 1, to, n); }
  }

  /** With no `#` ahead and no way back, unequal lengths end in a mismatch. */
  lemma {:induction false} NoWayBack(p: string, s: string, i: nat) returns (n: nat)
    requires i <= |p| && i <= |s| && |p| != |s| && forall k | i <= k < |p| :: p[k] != '#'
    ensures Runs(p, s, State(i, i, 0, 0), n) == Stop(false)
    decreases |p| - i
  {
    n := 0;
    if i < |p| && i < |s| && (p[i] == '?' || p[i] == s[i]) {
      n := NoWayBack(p, s, i + 1);
    }
    n := n + 1;
  }

  lemma {:induction false} MatchesItself(p: string)
    ensures Matches(p, p)
    decreases |p|
  {
    if p != "" {
      MatchesItself(p[1..]);
      if p[0] == '#' { assert Matches(p[1..], p[1..]); }
    }
  }

  /** One character more behind the `#` at `n`. */
  function Widened(p: string, n: nat, c: char): string
    requires n < |p|
  {
    p[..n + 1] + [c] + p[n + 1..]
  }

  lemma {:induction false} WidenedMatches(p: string, n: nat, c: char)
    requires n < |p| && p[n] == '#'
    ensures Matches(p, Widened(p, n, c))
    decreases |p|
  {
    var s, rest := Widened(p, n, c), p[1..];
    if n == 0 {
      MatchesItself(rest);
      assert s[2..] == rest;
    } else {
      WidenedMatches(rest, n - 1, c);
      assert s[1..] == Widened(rest, n - 1, c);
    }
  }

  /** Every pattern with a `#` is refused on a subject that it matches. */
  lemma RefusesMatch(p: string, n: nat, c: char)
    requires n < |p| && p[n] == '#' && forall k | n < k < |p| :: p[k] != '#'
    ensures Matches(p, Widened(p, n, c)) && !Decides(p, Widened(p, n, c))
    ensures exists m: nat :: Runs(p, Widened(p, n, c), START, m) == Stop(false)
  {
    hide Matches, Runs;
    var s := Widened(p, n, c);
    WidenedMatches(p, n, c);
    var m := NoWayBack(p, s, n + 1);
    Straight(p, s, 0, n + 1, m);
    WrongAnswer(p, s, n + 1 + m);
  }

  lemma {:induction false} LastHash(p: string) returns (n: nat)
    requires '#' in p
    ensures n < |p| && p[n] == '#' && forall k | n < k < |p| :: p[k] != '#'
  {
    var last := |p| - 1;
    if p[last] == '#' {
      n := last;
    } else {
      n := LastHash(p[..last]);
    }
  }

  /** The exact condition on patterns: those without `*` are decided on all subjects if and only if they have no `#`. */
  lemma PatternsDecided(p: string)
    requires '*' !in p
    ensures (forall s :: Decides(p, s)) <==> '#' !in p
  {
    hide Matches, Runs;
    if '#' in p {
      var n := LastHash(p);
      RefusesMatch(p, n, ' ');
    } else {
      forall s ensures Decides(p, s) {
        FromStart(p, s);
        var n := EndsRight(p, s, START);
      }
    }
  }

  function Any(m: nat): (r: string)
    ensures |r| == m && forall k | 0 <= k < m :: r[k] == '?'
  {
    if m == 0 then "" else "?" + Any(m - 1)
  }

  lemma {:induction false} AnyMatches(m: nat, rest: string, s: string)
    requires m <= |s| && Matches(rest, s[m..])
    ensures Matches(Any(m) + rest, s)
    decreases m
  {
    if m == 0 {
      assert Any(m) + rest == rest && s[0..] == s;
    } else {
      assert s[1..][m - 1..] == s[m..];
      AnyMatches(m - 1, rest, s[1..]);
      assert (Any(m) + rest)[1..] == Any(m - 1) + rest;
    }
  }

  /** A pattern that meets the `#` at `m` of the subject literally, and cannot go on. */
  function Trap(s: string, m: nat): (p: string)
    requires m < |s|
    ensures '*' !in p && |p| != |s| && |p| > m
  {
    Any(m) + if m + 1 == |s| then "#?" else "#"
  }

  lemma TrapMatches(s: string, m: nat)
    requires m < |s|
    ensures Matches(Trap(s, m), s)
  {
    var end := s[m..];
    if m + 1 == |s| {
      assert end[0..] == end && end[1..] == "" && "?"[1..] == "";
      assert Matches("", "") && Matches("?", end);
      assert "#?"[1..] == "?" && Matches("#?", end);
      AnyMatches(m, "#?", s);
    } else {
      assert end[|end|..] == "" && "#"[1..] == "" && Matches("", "");
      assert Matches("#", end);
      AnyMatches(m, "#", s);
    }
  }

  /** The exact condition on subjects: they are decided for all patterns without `*` if and only if they have no `#`. */
  lemma SubjectsDecided(s: string)
    ensures (forall p | '*' !in p :: Decides(p, s)) <==> '#' !in s
  {
    hide Matches, Runs;
    if m: nat :| m < |s| && s[m] == '#' {
      var p := Trap(s, m);
      TrapMatches(s, m);
      var n := NoWayBack(p, s, m + 1);
      Straight(p, s, 0, m + 1, n);
      WrongAnswer(p, s, m + 1 + n);
    } else {
      forall p | '*' !in p ensures Decides(p, s) {
        FromStart(p, s);
        var n := EndsRight(p, s, START);
      }
    }
  }

  /**
   Nor need the loop end: taken literally, a `#` leaves the way back where it was, so two
   turns later the loop is back in the same state.
   */
  lemma LoopsForever(a: char, x: char, b: char)
    requires a != '#' && a != '?' && x != '#' && a != x && a != b
    ensures
      var p, s := ['#', a], [x, '#', b];
      var g := State(0, 1, 0, 1);
      && Step(p, s, START) == Go(State(1, 0, 0, 1))
      && Step(p, s, State(1, 0, 0, 1)) == Go(g)
      && Step(p, s, g) == Go(State(1, 2, 0, 1))
      && Step(p, s, State(1, 2, 0, 1)) == Go(g)
      && forall n: nat :: Runs(p, s, START, n).Go?
  {
    var p, s := ['#', a], [x, '#', b];
    forall n: nat ensures Runs(p, s, START, n).Go? {
      if n >= 2 { GoesRound(p, s, State(0, 1, 0, 1), State(1, 2, 0, 1), n - 2); }
    }
  }

  lemma {:induction false} GoesRound(p: string, s: string, g: State, h: State, n: nat)
    requires In(p, s, g) && Step(p, s, g) == Go(h) && Step(p, s, h) == Go(g)
    ensures Runs(p, s, g, n).Go?
    decreases n
  {
    if n > 0 { GoesRound(p, s, h, g, n - 1); }
  }

  /** The loop ends. */
  ghost predicate Ends(p: string, s: string) {
    exists n: nat :: Runs(p, s, START, n).Stop?
  }

  /** A subject on which a pattern with its last `#` at `n` keeps going back to the same place. */
  function Spin(p: string, n: nat, x: char): string
    requires n < |p|
  {
    p[..n] + [x, '#'] + p
  }

  /** Behind the last `#`, with the way back to the `#` of the subject and enough subject left. */
  predicate Spinning(p: string, s: string, n: nat, g: State) {
    && In(p, s, g) && g.ni == n && g.nj == n + 1
    && ((g.i == n && g.j == n + 1) || (n < g.i && |p| - g.i < |s| - g.j))
  }

  lemma {:induction false} SpinsOn(p: string, s: string, n: nat, g: State, turns: nat)
    requires n < |p| && p[n] == '#' && (forall k | n < k < |p| :: p[k] != '#')
    requires |s| == |p| + n + 2 && s[n + 1] == '#' && Spinning(p, s, n, g)
    ensures Runs(p, s, g, turns).Go?
    decreases turns
  {
    if turns > 0 {
      var t := Step(p, s, g);
      assert t.Go? && Spinning(p, s, n, t.next);
      SpinsOn(p, s, n, t.next, turns - 1);
    }
  }

  lemma NeverEnds(p: string, n: nat, x: char)
    requires n < |p| && p[n] == '#' && (forall k | n < k < |p| :: p[k] != '#') && x != '#'
    ensures !Ends(p, Spin(p, n, x))
  {
    hide Runs;
    var s, g := Spin(p, n, x), State(n + 1, n, n, n + 1);
    assert s[n] == x && s[n + 1] == '#' && forall k | 0 <= k < n :: s[k] == p[k];
    forall turns: nat ensures !Runs(p, s, START, turns).Stop? {
      Straight(p, s, 0, n, turns + 1);
      FirstTurn(p, s, State(n, n, 0, 0), turns);
      SpinsOn(p, s, n, g, turns);
      if Runs(p, s, START, turns).Stop? { AnswerStands(p, s, START, turns, n + turns + 1); }
    }
  }

  lemma FirstTurn(p: string, s: string, g: State, turns: nat)
    requires In(p, s, g) && Step(p, s, g).Go?
    ensures Runs(p, s, g, turns + 1) == Runs(p, s, Step(p, s, g).next, turns)
  {
  }

  /** The exact condition for the loop to end: patterns without `*` end on all subjects if and only if they have no `#`. */
  lemma PatternsEnd(p: string)
    requires '*' !in p
    ensures (forall s :: Ends(p, s)) <==> '#' !in p
  {
    hide Matches, Runs;
    if '#' in p {
      var n := LastHash(p);
      NeverEnds(p, n, ' ');
    } else {
      forall s ensures Ends(p, s) {
        FromStart(p, s);
        var n := EndsRight(p, s, START);
      }
    }
  }
}
