/**
 * The training session: every card is in one of three sequences,
 * `remaining` (still to be asked, drawn from the end), `failed` and
 * `completed`. Answering moves the drawn card to `completed` or `failed`;
 * repeating moves all of `failed` back to `remaining`. Cards are only ever
 * moved, so the multiset of all cards of a session never changes.
 */
module Session {
  import opened Text
  import opened Cards

  /**
   * Draws a random source may give a Fisher-Yates shuffle of `n` items: the
   * draw for position `i` is in `0..i`.
   */
  predicate ValidDraws(draws: seq<nat>, n: nat)
  {
    |draws| == n && forall i :: 0 <= i < n ==> draws[i] <= i
  }

  /**
   * `Rng::shuffle`: from the last position down to the second, swap the
   * card at position `i` with the one at the drawn position `draws[i]`.
   * The random source is the argument `draws`; the result is a permutation.
   */
  method Shuffle(cards: seq<Card>, draws: seq<nat>) returns (r: seq<Card>)
    requires ValidDraws(draws, |cards|)
    ensures |r| == |cards| && multiset(r) == multiset(cards)
  {
    r := cards;
    var i := |r|;
    while i >= 2
      invariant i <= |r| == |cards|
      invariant multiset(r) == multiset(cards)
    {
      i := i - 1;
      var j := draws[i];
      r := r[i := r[j]][j := r[i]];
    }
  }

  /** The reply to the repeat prompt that repeats the failed cards: `yes` or nothing, after trimming. */
  predicate WantsRepeat(reply: string)
  {
    Trim(reply) == "yes" || Trim(reply) == ""
  }

  /**
   * The repeat decision as the program makes it: the prompt's reply is read
   * into the buffer that still holds the line of the last answer, and the
   * test is applied to both together.
   */
  predicate RepeatAsWritten(lastAnswerLine: string, reply: string)
  {
    WantsRepeat(lastAnswerLine + reply)
  }

  /** The repeat prompt accepts `yes` and an empty reply. */
  lemma WantsRepeatAccepts()
    ensures WantsRepeat("yes" + "\n") && WantsRepeat("\n")
  {
    TrimEndsWithNewline("yes");
    TrimWhitespaceChar('\n');
  }

  /** The repeat prompt is case sensitive and refuses other replies. */
  lemma WantsRepeatRefuses()
    ensures !WantsRepeat("no" + "\n") && !WantsRepeat("Yes" + "\n")
  {
    TrimEndsWithNewline("no");
    TrimEndsWithNewline("Yes");
  }

  /** A reply longer than `yes` with no white space at its ends is refused. */
  lemma WantsRepeatRefusesLong(s: string)
    requires |s| > 3 && Trimmed(s)
    ensures !WantsRepeat(s + "\n")
  {
    TrimEndsWithNewline(s);
  }

  /**
   * After a non-empty answer line, the program as written ends the session
   * on the reply `yes`, which alone asks for the repeat.
   */
  lemma RepeatAsWrittenRefusesYes(answer: string)
    requires answer != [] && Trimmed(answer)
    ensures !RepeatAsWritten(answer + "\n", "yes" + "\n")
  {
    var line, yes := answer + "\n", "yes";
    var front := line + yes;
    assert Trimmed(front) by {
      assert front[0] == answer[0] && front[|front| - 1] == yes[2];
    }
    WantsRepeatRefusesLong(front);
    assert line + (yes + "\n") == front + "\n";
  }

  /**
   * After a non-empty answer line other than `yes`, the program as written
   * also ends the session on an empty reply, which alone asks for the repeat.
   */
  lemma RepeatAsWrittenRefusesEmpty(answer: string)
    requires answer != [] && Trimmed(answer) && answer != "yes"
    ensures !RepeatAsWritten(answer + "\n", "\n")
  {
    var line := answer + "\n";
    TrimStartKeeps(answer, "\n");
    TrimStartKeeps(line, "\n");
    TrimEndSnocWhitespace(line, '\n');
    TrimEndSnocWhitespace(answer, '\n');
    assert TrimEnd(answer) == answer;
  }

  class Training {
    var remaining: seq<Card>
    var failed: seq<Card>
    var completed: seq<Card>

    /** All cards of the session, wherever they are. */
    ghost function Cards(): multiset<Card>
      reads this
    {
      multiset(remaining) + multiset(failed) + multiset(completed)
    }

    /** The card being asked: the last of `remaining`. */
    function Top(): Card
      reads this
      requires remaining != []
    {
      remaining[|remaining| - 1]
    }

    /** `make_training`: the shuffled cards are all remaining, none failed or completed. */
    constructor (cards: seq<Card>, draws: seq<nat>)
      requires ValidDraws(draws, |cards|)
      ensures |remaining| == |cards| && multiset(remaining) == multiset(cards)
      ensures failed == [] && completed == []
      ensures Cards() == multiset(cards)
    {
      var shuffled := Shuffle(cards, draws);
      remaining := shuffled;
      failed := [];
      completed := [];
    }

    /**
     * `answer_card`: take the top card off `remaining` and put it on
     * `completed` if the reply answers it, on `failed` otherwise.
     */
    method AnswerCard(reply: string) returns (correct: bool)
      requires remaining != []
      modifies this
      ensures correct == IsAnswerForCard(reply, old(Top()))
      ensures remaining == old(remaining[..|remaining| - 1])
      ensures correct ==> completed == old(completed) + [old(Top())] && failed == old(failed)
      ensures !correct ==> failed == old(failed) + [old(Top())] && completed == old(completed)
      ensures Cards() == old(Cards())
    {
      var card := Top();
      assert remaining == remaining[..|remaining| - 1] + [card];
      remaining := remaining[..|remaining| - 1];
      if IsAnswerForCard(reply, card) {
        completed := completed + [card];
        correct := true;
      } else {
        failed := failed + [card];
        correct := false;
      }
    }

    /** The repeat step: the failed cards, in their order, become the remaining ones. */
    method Repeat()
      requires remaining == []
      modifies this
      ensures remaining == old(failed) && failed == [] && completed == old(completed)
      ensures Cards() == old(Cards())
    {
      remaining := failed;
      failed := [];
    }

    /**
     * The end of a pass: with failed cards, the reply to the prompt decides
     * whether they are repeated; otherwise, or on any other reply, nothing
     * changes and the session ends.
     */
    method Review(reply: string) returns (again: bool)
      requires remaining == []
      modifies this
      ensures again <==> old(failed) != [] && WantsRepeat(reply)
      ensures again ==> remaining == old(failed) && failed == []
      ensures !again ==> remaining == [] && failed == old(failed)
      ensures completed == old(completed)
      ensures Cards() == old(Cards())
    {
      again := failed != [] && WantsRepeat(reply);
      if again {
        Repeat();
      }
    }
  }

  /** The last `k` cards of `rem` in the order `pop` takes them: the last one first. */
  function Popped(rem: seq<Card>, k: nat): (r: seq<Card>)
    requires k <= |rem|
    ensures |r| == k
  {
    seq(k, i requires 0 <= i < k => rem[|rem| - 1 - i])
  }

  /** Whether each reply answers the card at the same position. */
  function Verdicts(cards: seq<Card>, replies: seq<string>): (v: seq<bool>)
    requires |cards| == |replies|
    ensures |v| == |cards|
  {
    seq(|cards|, i requires 0 <= i < |cards| => IsAnswerForCard(replies[i], cards[i]))
  }

  /** The cards whose verdict is `correct`, in their order. */
  function Graded(cards: seq<Card>, verdicts: seq<bool>, correct: bool): seq<Card>
    requires |cards| == |verdicts|
  {
    if cards == [] then []
    else
      var n := |cards| - 1;
      Graded(cards[..n], verdicts[..n], correct) + (if verdicts[n] == correct then [cards[n]] else [])
  }

  /** One more card and verdict adds the card on the side its verdict decides. */
  lemma GradedSnoc(cards: seq<Card>, verdicts: seq<bool>, c: Card, v: bool, correct: bool)
    requires |cards| == |verdicts|
    ensures Graded(cards + [c], verdicts + [v], correct)
      == Graded(cards, verdicts, correct) + (if v == correct then [c] else [])
  {
    assert (cards + [c])[..|cards|] == cards;
    assert (verdicts + [v])[..|verdicts|] == verdicts;
  }

  /** One more card and reply adds the reply's verdict on that card. */
  lemma VerdictsSnoc(cards: seq<Card>, replies: seq<string>, c: Card, reply: string)
    requires |cards| == |replies|
    ensures Verdicts(cards + [c], replies + [reply]) == Verdicts(cards, replies) + [IsAnswerForCard(reply, c)]
  {
    assert (cards + [c])[|cards|] == c && (replies + [reply])[|replies|] == reply;
    forall i | 0 <= i < |cards|
      ensures Verdicts(cards + [c], replies + [reply])[i] == Verdicts(cards, replies)[i]
    {
      assert (cards + [c])[i] == cards[i] && (replies + [reply])[i] == replies[i];
    }
  }

  /** Every card is graded exactly once: the answered and the missed ones together are all of them. */
  lemma {:induction false} GradedPartition(cards: seq<Card>, verdicts: seq<bool>)
    requires |cards| == |verdicts|
    ensures multiset(Graded(cards, verdicts, true)) + multiset(Graded(cards, verdicts, false)) == multiset(cards)
    decreases |cards|
  {
    if cards != [] {
      var n := |cards| - 1;
      var front, last := cards[..n], cards[n];
      var passed, missed := Graded(front, verdicts[..n], true), Graded(front, verdicts[..n], false);
      GradedPartition(front, verdicts[..n]);
      assert multiset(cards) == multiset(front) + multiset{last} by {
        assert cards == front + [last];
      }
      if verdicts[n] {
        assert Graded(cards, verdicts, true) == passed + [last];
        assert Graded(cards, verdicts, false) == missed;
      } else {
        assert Graded(cards, verdicts, true) == passed;
        assert Graded(cards, verdicts, false) == missed + [last];
      }
    }
  }

  /** When every reply answers its card, every card is completed and none failed. */
  lemma {:induction false} GradedAllAnswered(cards: seq<Card>, verdicts: seq<bool>)
    requires |cards| == |verdicts| && forall i :: 0 <= i < |verdicts| ==> verdicts[i]
    ensures Graded(cards, verdicts, true) == cards && Graded(cards, verdicts, false) == []
    decreases |cards|
  {
    if cards != [] {
      var n := |cards| - 1;
      GradedAllAnswered(cards[..n], verdicts[..n]);
      assert cards == cards[..n] + [cards[n]];
    }
  }

  /**
   * The state after answering the cards popped off `r0` with `replies`, one
   * each, starting from `r0`, `c0` and `f0`: the answered cards are gone
   * from the end of `remaining`, and each is on `completed` or `failed` as
   * its reply answers it.
   */
  ghost predicate Asked(r0: seq<Card>, c0: seq<Card>, f0: seq<Card>, replies: seq<string>,
                        remaining: seq<Card>, completed: seq<Card>, failed: seq<Card>)
  {
    |replies| <= |r0| && remaining == r0[..|r0| - |replies|]
    && var taken := Popped(r0, |replies|);
    completed == c0 + Graded(taken, Verdicts(taken, replies), true)
    && failed == f0 + Graded(taken, Verdicts(taken, replies), false)
  }

  /** Answering the top card with one more reply keeps `Asked`. */
  lemma AskedStep(r0: seq<Card>, c0: seq<Card>, f0: seq<Card>, replies: seq<string>,
                  remaining: seq<Card>, completed: seq<Card>, failed: seq<Card>, reply: string,
                  remaining': seq<Card>, completed': seq<Card>, failed': seq<Card>)
    requires Asked(r0, c0, f0, replies, remaining, completed, failed) && remaining != []
    requires remaining' == remaining[..|remaining| - 1]
    requires IsAnswerForCard(reply, remaining[|remaining| - 1]) ==>
      completed' == completed + [remaining[|remaining| - 1]] && failed' == failed
    requires !IsAnswerForCard(reply, remaining[|remaining| - 1]) ==>
      failed' == failed + [remaining[|remaining| - 1]] && completed' == completed
    ensures Asked(r0, c0, f0, replies + [reply], remaining', completed', failed')
  {
    var k, card := |replies|, remaining[|remaining| - 1];
    assert card == r0[|r0| - 1 - k];
    var taken := Popped(r0, k);
    assert Popped(r0, k + 1) == taken + [card];
    var v := Verdicts(taken, replies);
    VerdictsSnoc(taken, replies, card, reply);
    GradedSnoc(taken, v, card, IsAnswerForCard(reply, card), true);
    GradedSnoc(taken, v, card, IsAnswerForCard(reply, card), false);
    assert |replies + [reply]| == k + 1;
  }

  /** One more line of the script adds its trim to the replies. */
  lemma RepliesSnoc(script: seq<string>, start: nat, used: nat)
    requires start <= used < |script|
    ensures TrimAll(script[start..used + 1]) == TrimAll(script[start..used]) + [Trim(script[used])]
  {
    assert script[start..used + 1] == script[start..used] + [script[used]];
    TrimAllSnoc(script[start..used], script[used]);
  }

  /** Before any card is asked, nothing has moved. */
  lemma AskedNone(r0: seq<Card>, c0: seq<Card>, f0: seq<Card>)
    ensures Asked(r0, c0, f0, [], r0, c0, f0)
  {
    assert r0[..|r0|] == r0;
  }

  /** A first pass that asked every card leaves completed exactly the cards that passed. */
  lemma AskedAllCompleted(deck: seq<Card>, replies: seq<string>, remaining: seq<Card>, completed: seq<Card>,
                          failed: seq<Card>)
    requires Asked(deck, [], [], replies, remaining, completed, failed) && |replies| == |deck|
    ensures var asked := Popped(deck, |deck|); completed == Graded(asked, Verdicts(asked, replies), true)
  {
    var asked := Popped(deck, |deck|);
    assert [] + Graded(asked, Verdicts(asked, replies), true) == Graded(asked, Verdicts(asked, replies), true);
  }

  /**
   * One step of the inner loop of `train`: the top card is answered with the
   * next line of the script, trimmed, keeping `Asked` one line further on.
   */
  method AskLine(t: Training, script: seq<string>, start: nat, used: nat,
                 ghost r0: seq<Card>, ghost c0: seq<Card>, ghost f0: seq<Card>)
    requires start <= used < |script| && t.remaining != []
    requires Asked(r0, c0, f0, TrimAll(script[start..used]), t.remaining, t.completed, t.failed)
    requires Pass(t.remaining, t.completed, t.failed, script, used) == Pass(r0, c0, f0, script, start)
    modifies t
    ensures Asked(r0, c0, f0, TrimAll(script[start..used + 1]), t.remaining, t.completed, t.failed)
    ensures |t.remaining| == |old(t.remaining)| - 1
    ensures Pass(t.remaining, t.completed, t.failed, script, used + 1) == Pass(r0, c0, f0, script, start)
    ensures t.Cards() == old(t.Cards())
  {
    ghost var remaining, completed, failed := t.remaining, t.completed, t.failed;
    var line := Trim(script[used]);
    var correct := t.AnswerCard(line);
    assert Pass(t.remaining, t.completed, t.failed, script, used + 1) == Pass(remaining, completed, failed, script, used);
    RepliesSnoc(script, start, used);
    AskedStep(r0, c0, f0, TrimAll(script[start..used]), remaining, completed, failed, line,
              t.remaining, t.completed, t.failed);
  }

  /** How a scripted run of the trainer ends. */
  datatype Ending = Finished | OutOfInput

  /** Where a scripted run, or one pass of it, leaves the session and the script. */
  datatype Outcome = Outcome(remaining: seq<Card>, completed: seq<Card>, failed: seq<Card>, ending: Ending, used: nat)

  /**
   * One pass of the inner loop of `train` from line `start` of the script:
   * while cards and lines remain, the top card of `remaining` is answered by
   * the next line, trimmed, and moves to `completed` if the line answers it
   * and to `failed` otherwise. The pass runs out of input when cards remain.
   */
  function Pass(remaining: seq<Card>, completed: seq<Card>, failed: seq<Card>,
                script: seq<string>, start: nat): (o: Outcome)
    requires start <= |script|
    ensures start <= o.used <= |script| && o.used - start == |remaining| - |o.remaining|
    ensures o.remaining == [] || o.used == |script|
    ensures o.ending == OutOfInput <==> o.remaining != []
    ensures completed <= o.completed
    decreases |remaining|
  {
    if remaining == [] || start == |script| then
      Outcome(remaining, completed, failed, if remaining == [] then Finished else OutOfInput, start)
    else
      var card := remaining[|remaining| - 1];
      if IsAnswerForCard(Trim(script[start]), card) then
        Pass(remaining[..|remaining| - 1], completed + [card], failed, script, start + 1)
      else
        Pass(remaining[..|remaining| - 1], completed, failed + [card], script, start + 1)
  }

  /**
   * The outer loop of `train` once a pass has ended at line `pos`: a pass
   * that ran out of input ends the run; with no failed card the run is
   * finished; otherwise the next line is the reply to the repeat prompt,
   * and a reply that asks for the repeat starts a pass over the failed
   * cards, after which the loop goes on.
   */
  function RoundsOutcome(remaining: seq<Card>, completed: seq<Card>, failed: seq<Card>,
                         script: seq<string>, pos: nat): (r: Outcome)
    requires pos <= |script| && (remaining == [] || pos == |script|)
    ensures pos <= r.used <= |script|
    ensures completed <= r.completed
    decreases |script| - pos
  {
    if remaining != [] || (failed != [] && pos == |script|) then
      Outcome(remaining, completed, failed, OutOfInput, pos)
    else if failed == [] then
      Outcome([], completed, [], Finished, pos)
    else if !WantsRepeat(script[pos]) then
      Outcome([], completed, failed, Finished, pos + 1)
    else
      var p := Pass(failed, completed, [], script, pos + 1);
      RoundsOutcome(p.remaining, p.completed, p.failed, script, p.used)
  }

  /**
   * How the outer loop ends: out of input only at the end of the script,
   * and finished only with no card remaining.
   */
  lemma {:induction false} RoundsOutcomeEnds(remaining: seq<Card>, completed: seq<Card>, failed: seq<Card>,
                                             script: seq<string>, pos: nat, r: Outcome)
    requires pos <= |script| && (remaining == [] || pos == |script|)
    requires r == RoundsOutcome(remaining, completed, failed, script, pos)
    ensures r.ending == OutOfInput ==> r.used == |script|
    ensures r.ending == Finished ==> r.remaining == []
    decreases |script| - pos
  {
    if remaining == [] && failed != [] && pos < |script| && WantsRepeat(script[pos]) {
      var p := Pass(failed, completed, [], script, pos + 1);
      RoundsOutcomeEnds(p.remaining, p.completed, p.failed, script, p.used, r);
    }
  }

  /**
   * A run that finishes with failed cards left over ends just after a reply
   * to the repeat prompt that refuses the repeat.
   */
  lemma {:induction false} RoundsOutcomeRefused(remaining: seq<Card>, completed: seq<Card>, failed: seq<Card>,
                                                script: seq<string>, pos: nat, r: Outcome)
    requires pos <= |script| && (remaining == [] || pos == |script|)
    requires r == RoundsOutcome(remaining, completed, failed, script, pos)
    ensures r.ending == Finished && r.failed != [] ==> pos < r.used && !WantsRepeat(script[r.used - 1])
    decreases |script| - pos
  {
    if remaining == [] && failed != [] && pos < |script| && WantsRepeat(script[pos]) {
      var p := Pass(failed, completed, [], script, pos + 1);
      RoundsOutcomeRefused(p.remaining, p.completed, p.failed, script, p.used, r);
    }
  }

  /** A whole scripted run of `train` over the shuffled `deck`: the first pass, then the outer loop. */
  function TrainOutcome(deck: seq<Card>, script: seq<string>): Outcome
  {
    var p := Pass(deck, [], [], script, 0);
    RoundsOutcome(p.remaining, p.completed, p.failed, script, p.used)
  }

  /**
   * One card answered wrongly, the repeat accepted, then the card answered
   * rightly: the run uses all three lines and ends with the card completed.
   */
  lemma RetryRun(c: Card, wrong: string, yes: string, right: string)
    requires !IsAnswerForCard(Trim(wrong), c) && WantsRepeat(yes) && IsAnswerForCard(Trim(right), c)
    ensures TrainOutcome([c], [wrong, yes, right]) == Outcome([], [c], [], Finished, 3)
  {
    var script := [wrong, yes, right];
    assert [c][..0] == [] && [] + [c] == [c];
    assert Pass([c], [], [], script, 0) == Outcome([], [], [c], Finished, 1) by {
      assert Pass([c], [], [], script, 0) == Pass([], [], [c], script, 1);
    }
    assert Pass([c], [], [], script, 2) == Outcome([], [c], [], Finished, 3) by {
      assert Pass([c], [], [], script, 2) == Pass([], [c], [], script, 3);
    }
    assert RoundsOutcome([], [], [c], script, 1) == RoundsOutcome([], [c], [], script, 3);
  }

  /** One card answered wrongly and the repeat refused: the card stays failed after two lines. */
  lemma DeclineRun(c: Card, wrong: string, no: string)
    requires !IsAnswerForCard(Trim(wrong), c) && !WantsRepeat(no)
    ensures TrainOutcome([c], [wrong, no]) == Outcome([], [], [c], Finished, 2)
  {
    var script := [wrong, no];
    assert [c][..0] == [] && [] + [c] == [c];
    assert Pass([c], [], [], script, 0) == Outcome([], [], [c], Finished, 1) by {
      assert Pass([c], [], [], script, 0) == Pass([], [], [c], script, 1);
    }
  }

  /** One card answered wrongly and no line left for the repeat prompt: the run is out of input. */
  lemma StuckRun(c: Card, wrong: string)
    requires !IsAnswerForCard(Trim(wrong), c)
    ensures TrainOutcome([c], [wrong]) == Outcome([], [], [c], OutOfInput, 1)
  {
    var script := [wrong];
    assert [c][..0] == [] && [] + [c] == [c];
    assert Pass([c], [], [], script, 0) == Outcome([], [], [c], Finished, 1) by {
      assert Pass([c], [], [], script, 0) == Pass([], [], [c], script, 1);
    }
  }

  /**
   * The inner loop of `train`: ask the remaining cards one by one, each
   * answered by the next line of `script`, trimmed, until none remains or
   * the script runs out. One line is used per card asked, and the cards
   * move as `Asked` says.
   */
  method AskAll(t: Training, script: seq<string>, start: nat) returns (used: nat)
    requires start <= |script|
    modifies t
    ensures start <= used <= |script|
    ensures t.remaining == [] || used == |script|
    ensures used - start == |old(t.remaining)| - |t.remaining|
    ensures Asked(old(t.remaining), old(t.completed), old(t.failed), TrimAll(script[start..used]),
                  t.remaining, t.completed, t.failed)
    ensures old(t.completed) <= t.completed
    ensures Outcome(t.remaining, t.completed, t.failed, if t.remaining == [] then Finished else OutOfInput, used)
         == Pass(old(t.remaining), old(t.completed), old(t.failed), script, start)
    ensures t.Cards() == old(t.Cards())
  {
    ghost var r0, c0, f0 := t.remaining, t.completed, t.failed;
    used := start;
    assert script[start..used] == [];
    AskedNone(r0, c0, f0);
    while t.remaining != [] && used < |script|
      invariant start <= used <= |script|
      invariant Asked(r0, c0, f0, TrimAll(script[start..used]), t.remaining, t.completed, t.failed)
      invariant Pass(t.remaining, t.completed, t.failed, script, used) == Pass(r0, c0, f0, script, start)
      invariant t.Cards() == old(t.Cards())
      decreases |t.remaining|
    {
      AskLine(t, script, start, used, r0, c0, f0);
      used := used + 1;
    }
    ghost var o := Pass(r0, c0, f0, script, start);
    PassStops(t.remaining, t.completed, t.failed, script, used, o);
    assert o.used == used && o.remaining == t.remaining && o.completed == t.completed;
  }

  /** A pass with no card or no line left stops where it is. */
  lemma PassStops(remaining: seq<Card>, completed: seq<Card>, failed: seq<Card>, script: seq<string>, pos: nat, o: Outcome)
    requires pos <= |script| && (remaining == [] || pos == |script|)
    requires o == Pass(remaining, completed, failed, script, pos)
    ensures o == Outcome(remaining, completed, failed, if remaining == [] then Finished else OutOfInput, pos)
  {
  }

  /**
   * The outer loop of `train` once a pass over the remaining cards has ended:
   * while cards failed, the next line is the reply to the repeat prompt, and
   * a repeat asks the failed cards again, one line each.
   */
  method Rounds(t: Training, script: seq<string>, start: nat) returns (ending: Ending, used: nat)
    requires start <= |script| && (t.remaining == [] || start == |script|)
    modifies t
    ensures start <= used <= |script|
    ensures t.Cards() == old(t.Cards())
    ensures old(t.completed) <= t.completed
    ensures old(t.remaining) != [] ==> ending == OutOfInput && used == start
    ensures old(t.remaining) != [] ==> unchanged(t)
    ensures ending == OutOfInput ==> used == |script|
    ensures ending == Finished ==> t.remaining == []
    ensures ending == Finished && t.failed != [] ==> start < used && !WantsRepeat(script[used - 1])
    ensures Outcome(t.remaining, t.completed, t.failed, ending, used)
         == RoundsOutcome(old(t.remaining), old(t.completed), old(t.failed), script, start)
  {
    ghost var r0, c0, f0 := t.remaining, t.completed, t.failed;
    ghost var target := RoundsOutcome(r0, c0, f0, script, start);
    used, ending := start, Finished;
    var asking := true;
    while asking
      invariant start <= used <= |script|
      invariant t.remaining == [] || used == |script|
      invariant asking ==> RoundsOutcome(t.remaining, t.completed, t.failed, script, used) == target
      invariant !asking ==> Outcome(t.remaining, t.completed, t.failed, ending, used) == target
      invariant old(t.remaining) != [] ==> used == start && unchanged(t)
      invariant t.Cards() == old(t.Cards())
      decreases asking, |script| - used
    {
      if t.remaining != [] || (t.failed != [] && used == |script|) {
        ending, asking := OutOfInput, false;
      } else if t.failed == [] {
        ending, asking := Finished, false;
      } else {
        var again;
        again, used := RepeatPrompt(t, script, used);
        if !again {
          ending, asking := Finished, false;
        }
      }
    }
    RoundsOutcomeEnds(r0, c0, f0, script, start, target);
    RoundsOutcomeRefused(r0, c0, f0, script, start, target);
  }

  /**
   * The repeat prompt after a pass that left failed cards: line `pos` is the
   * reply, and a reply that asks for the repeat is followed by a pass over
   * the failed cards. Either way the run goes on as `RoundsOutcome` says.
   */
  method RepeatPrompt(t: Training, script: seq<string>, pos: nat) returns (again: bool, used: nat)
    requires pos < |script| && t.remaining == [] && t.failed != []
    modifies t
    ensures again <==> WantsRepeat(script[pos])
    ensures pos < used <= |script| && (t.remaining == [] || used == |script|)
    ensures !again ==> used == pos + 1 && t.remaining == [] && t.failed == old(t.failed) && t.completed == old(t.completed)
    ensures again ==>
      Outcome(t.remaining, t.completed, t.failed, if t.remaining == [] then Finished else OutOfInput, used)
        == Pass(old(t.failed), old(t.completed), [], script, pos + 1)
    ensures again ==>
      RoundsOutcome(t.remaining, t.completed, t.failed, script, used)
        == RoundsOutcome([], old(t.completed), old(t.failed), script, pos)
    ensures old(t.completed) <= t.completed
    ensures t.Cards() == old(t.Cards())
  {
    ghost var completed, failed := t.completed, t.failed;
    var reply := script[pos];
    used := pos + 1;
    again := t.Review(reply);
    if again {
      used := AskAll(t, script, used);
      RepeatStep(failed, completed, script, pos,
                 Outcome(t.remaining, t.completed, t.failed, if t.remaining == [] then Finished else OutOfInput, used));
    }
  }

  /** A reply that asks for the repeat hands the rest of the run to a pass over the failed cards. */
  lemma RepeatStep(failed: seq<Card>, completed: seq<Card>, script: seq<string>, pos: nat, p: Outcome)
    requires pos < |script| && failed != [] && WantsRepeat(script[pos])
    requires p == Pass(failed, completed, [], script, pos + 1)
    ensures RoundsOutcome([], completed, failed, script, pos) == RoundsOutcome(p.remaining, p.completed, p.failed, script, p.used)
  {
  }

  /**
   * `train`, driven by the lines of `script` in order: each asked card takes
   * the next line, trimmed, as its answer, and each repeat prompt takes the
   * next line as its reply. The run stops with `OutOfInput` where the
   * program would wait for a line the script does not have.
   */
  method Train(cards: seq<Card>, draws: seq<nat>, script: seq<string>) returns (t: Training, deck: seq<Card>, ending: Ending, used: nat)
    requires ValidDraws(draws, |cards|)
    ensures |deck| == |cards| && multiset(deck) == multiset(cards)
    ensures used <= |script|
    ensures t.Cards() == multiset(cards)
    ensures |cards| <= |script| ==> |cards| <= used
    ensures |script| < |cards| ==> ending == OutOfInput
    ensures ending == OutOfInput ==> used == |script|
    ensures ending == Finished ==> t.remaining == []
    ensures ending == Finished && t.failed == [] ==> multiset(t.completed) == multiset(cards)
    ensures ending == Finished && t.failed != [] ==> 0 < used && !WantsRepeat(script[used - 1])
    ensures |script| < |cards| ==>
      Asked(deck, [], [], TrimAll(script), t.remaining, t.completed, t.failed)
    ensures |cards| <= |script| ==>
      var asked := Popped(deck, |cards|);
      Graded(asked, Verdicts(asked, TrimAll(script[..|cards|])), true) <= t.completed
    ensures Outcome(t.remaining, t.completed, t.failed, ending, used) == TrainOutcome(deck, script)
  {
    t := new Training(cards, draws);
    deck := t.remaining;
    var first := AskAll(t, script, 0);
    ghost var remaining, completed, failed := t.remaining, t.completed, t.failed;
    ending, used := Rounds(t, script, first);
    FirstPass(deck, script, first, remaining, completed, failed);
  }

  /** What the first pass of `train` leaves, whether or not the script covers the whole deck. */
  lemma FirstPass(deck: seq<Card>, script: seq<string>, first: nat,
                  remaining: seq<Card>, completed: seq<Card>, failed: seq<Card>)
    requires first <= |script| && (remaining == [] || first == |script|)
    requires Asked(deck, [], [], TrimAll(script[0..first]), remaining, completed, failed)
    ensures |script| < |deck| ==> remaining != [] && Asked(deck, [], [], TrimAll(script), remaining, completed, failed)
    ensures |deck| <= |script| ==>
      first == |deck| &&
      var asked := Popped(deck, |deck|);
      Graded(asked, Verdicts(asked, TrimAll(script[..|deck|])), true) == completed
  {
    if |script| < |deck| {
      assert script[0..first] == script;
    } else {
      assert first == |deck| && script[0..first] == script[..|deck|];
      AskedAllCompleted(deck, TrimAll(script[..|deck|]), remaining, completed, failed);
    }
  }

  /** One card, answered wrongly, repeated with `yes`, then answered rightly: it ends completed. */
  method RetryScenario(c: Card, wrong: string, right: string) returns (t: Training)
    requires !IsAnswerForCard(wrong, c) && IsAnswerForCard(right, c)
    ensures t.remaining == [] && t.failed == [] && t.completed == [c]
  {
    t := new Training([c], [0]);
    assert t.remaining == [c] by {
      assert t.remaining[0] in multiset(t.remaining);
    }
    var first := t.AnswerCard(wrong);
    WantsRepeatAccepts();
    var again := t.Review("yes" + "\n");
    var second := t.AnswerCard(right);
  }

  /** One card, answered wrongly, then the repeat declined with `no`: it stays failed. */
  method DeclineScenario(c: Card, wrong: string) returns (t: Training)
    requires !IsAnswerForCard(wrong, c)
    ensures t.remaining == [] && t.failed == [c] && t.completed == []
  {
    t := new Training([c], [0]);
    assert t.remaining == [c] by {
      assert t.remaining[0] in multiset(t.remaining);
    }
    var first := t.AnswerCard(wrong);
    WantsRepeatRefuses();
    var again := t.Review("no" + "\n");
  }
}
