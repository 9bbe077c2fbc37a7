/**
 * The scoring rule of one round. Each submitted answer string holds up to
 * five `;`-separated words, one per category; each vote string holds
 * `;`-separated `category:word` vetoes. A word is rejected when at least half
 * of the room's members veto it (a room of one accepts everything); an
 * accepted word scores 10 when no other submitted answer has the same word in
 * that category, and 5 when it is shared.
 */
module Scoring {
  import opened Options
  import opened Text

  /** The number of categories; fields after the fifth are ignored. */
  const Categories: nat := 5

  /** The category labels of the verification payload, in category order. */
  const Labels: seq<string> := ["Panstwo", "Miasto", "Zwierze", "Roslina", "Rzecz"]

  /**
   * What a round is scored from: the submitted answer strings (one per
   * submitting member), the veto entries of all vote strings, and the number
   * of entries in the room's member list.
   */
  datatype Round = Round(answers: seq<string>, vetoes: seq<(int, string)>, members: int)

  /** The fields of an answer string that are scored: its `;`-separated tokens, at most five. */
  function Fields(answer: string): seq<string>
  {
    var parts := Tokens(answer, ';');
    if |parts| <= Categories then parts else parts[..Categories]
  }

  /** The word an answer string gives for category `i`; `""` when it gives none. */
  function FieldOf(answer: string, i: nat): string
  {
    var fs := Fields(answer);
    if i < |fs| then fs[i] else ""
  }

  lemma FieldOfIsToken(answer: string, i: nat)
    ensures FieldOf(answer, i) == if i < Categories && i < |Tokens(answer, ';')| then Tokens(answer, ';')[i] else ""
  {
  }

  /** How many times `x` occurs in `s`. */
  function Count<T(==)>(s: seq<T>, x: T): nat
  {
    if s == [] then 0 else Count(s[..|s| - 1], x) + (if s[|s| - 1] == x then 1 else 0)
  }

  lemma {:induction false} CountAppend<T>(a: seq<T>, b: seq<T>, x: T)
    ensures Count(a + b, x) == Count(a, x) + Count(b, x)
  {
    if b == [] {
      assert a + b == a;
    } else {
      assert (a + b)[..|a + b| - 1] == a + b[..|b| - 1];
      CountAppend(a, b[..|b| - 1], x);
    }
  }

  /** An element occurs in a sequence exactly when its count is positive. */
  lemma {:induction false} CountPositive<T>(s: seq<T>, x: T)
    ensures Count(s, x) > 0 <==> x in s
  {
    if s != [] {
      CountPositive(s[..|s| - 1], x);
      assert s == s[..|s| - 1] + [s[|s| - 1]];
    }
  }

  // ---------------------------------------------------------------------
  // Vetoes

  /**
   * One `idx:word` veto entry: counted only when it splits on `:` into exactly
   * two parts and `stoi` accepts the first; otherwise ignored.
   */
  function VetoEntry(part: string): Option<(int, string)>
  {
    var kv := Tokens(part, ':');
    if |kv| == 2 then
      match Stoi(kv[0])
      case Some(c) => Some((c, kv[1]))
      case None => None
    else None
  }

  function EntriesOf(parts: seq<string>): seq<(int, string)>
  {
    if parts == [] then []
    else
      EntriesOf(parts[..|parts| - 1])
      + match VetoEntry(parts[|parts| - 1]) case Some(e) => [e] case None => []
  }

  /** The veto entries of one vote string, in order. */
  function VetoEntries(vote: string): seq<(int, string)>
  {
    EntriesOf(Tokens(vote, ';'))
  }

  /** The veto entries of all vote strings, in order. */
  function AllVetoEntries(votes: seq<string>): seq<(int, string)>
  {
    if votes == [] then []
    else AllVetoEntries(votes[..|votes| - 1]) + VetoEntries(votes[|votes| - 1])
  }

  /** How many entries, over all vote strings, veto `word` in category `i`. */
  function Vetoes(votes: seq<string>, i: int, word: string): nat
  {
    Count(AllVetoEntries(votes), (i, word))
  }

  /** The acceptance test: a room of one accepts everything, otherwise fewer than half must veto. */
  predicate Accepted(vetoes: int, members: int)
  {
    if members <= 1 then true else vetoes * 2 < members
  }

  /** The round scored from the given answer strings, vote strings and member count. */
  function RoundOf(answers: seq<string>, votes: seq<string>, members: int): (r: Round)
    ensures r.answers == answers && r.members == members
    ensures forall i, word :: Count(r.vetoes, (i, word)) == Vetoes(votes, i, word)
  {
    Round(answers, AllVetoEntries(votes), members)
  }

  predicate IsAccepted(r: Round, i: int, word: string)
  {
    Accepted(Count(r.vetoes, (i, word)), r.members)
  }

  // ---------------------------------------------------------------------
  // Points

  /** Whether answer string `a` gives the accepted, non-empty word `word` in category `i`. */
  predicate Valid(r: Round, a: string, i: nat, word: string)
  {
    word != "" && FieldOf(a, i) == word && IsAccepted(r, i, word)
  }

  function ValidCountUpTo(r: Round, n: nat, i: nat, word: string): nat
    requires n <= |r.answers|
  {
    if n == 0 then 0
    else ValidCountUpTo(r, n - 1, i, word) + (if Valid(r, r.answers[n - 1], i, word) then 1 else 0)
  }

  /** How many submitted answers give the accepted, non-empty word `word` in category `i`. */
  function ValidCount(r: Round, i: nat, word: string): nat
  {
    ValidCountUpTo(r, |r.answers|, i, word)
  }

  /** The points word `w` earns in category `i`. */
  function WordPoints(r: Round, i: nat, w: string): nat
  {
    if w == "" || !IsAccepted(r, i, w) then 0
    else if ValidCount(r, i, w) == 1 then 10
    else 5
  }

  /** The points category `i` of an answer string earns. */
  function CategoryPoints(r: Round, answer: string, i: nat): nat
  {
    WordPoints(r, i, FieldOf(answer, i))
  }

  function FieldsPoints(r: Round, fs: seq<string>): nat
  {
    if fs == [] then 0
    else
      var i := |fs| - 1;
      FieldsPoints(r, fs[..i]) + WordPoints(r, i, fs[i])
  }

  /** A member's round score: the points of each of the (at most five) fields of its answer, added up. */
  function RoundPoints(r: Round, answer: string): nat
  {
    FieldsPoints(r, Fields(answer))
  }

  // ---------------------------------------------------------------------
  // Properties

  lemma {:induction false} ValidCountAtLeast(r: Round, n: nat, k: nat, i: nat, word: string)
    requires k < n <= |r.answers| && Valid(r, r.answers[k], i, word)
    ensures ValidCountUpTo(r, n, i, word) >= 1 + ValidCountUpTo(r, k, i, word)
  {
    if n > k + 1 {
      ValidCountAtLeast(r, n - 1, k, i, word);
      assert ValidCountUpTo(r, n, i, word) >= ValidCountUpTo(r, n - 1, i, word);
    } else {
      assert ValidCountUpTo(r, n, i, word) == ValidCountUpTo(r, k, i, word) + 1;
    }
  }

  /** A submitted answer's own accepted word is counted: the tally is at least one. */
  lemma OwnWordCounted(r: Round, k: nat, i: nat)
    requires k < |r.answers| && Valid(r, r.answers[k], i, FieldOf(r.answers[k], i))
    ensures ValidCount(r, i, FieldOf(r.answers[k], i)) >= 1
  {
    ValidCountAtLeast(r, |r.answers|, k, i, FieldOf(r.answers[k], i));
  }

  /**
   * The only submitted answer giving an accepted word in a category scores 10
   * for it; when another submitted answer gives the same word, both score 5.
   */
  lemma SharedWordScoresFive(r: Round, j: nat, k: nat, i: nat)
    requires j < k < |r.answers|
    requires FieldOf(r.answers[j], i) == FieldOf(r.answers[k], i)
    requires Valid(r, r.answers[j], i, FieldOf(r.answers[j], i))
    ensures CategoryPoints(r, r.answers[j], i) == 5 && CategoryPoints(r, r.answers[k], i) == 5
  {
    var w := FieldOf(r.answers[j], i);
    ValidCountAtLeast(r, |r.answers|, k, i, w);
    ValidCountAtLeast(r, k, j, i, w);
  }

  lemma {:induction false} ValidCountOnly(r: Round, n: nat, k: nat, i: nat, word: string)
    requires k < n <= |r.answers| && Valid(r, r.answers[k], i, word)
    requires forall m :: 0 <= m < |r.answers| && m != k ==> FieldOf(r.answers[m], i) != word
    ensures ValidCountUpTo(r, n, i, word) == 1
  {
    if n > k + 1 {
      ValidCountOnly(r, n - 1, k, i, word);
    } else {
      ValidCountNone(r, k, i, word, k);
    }
  }

  lemma {:induction false} ValidCountNone(r: Round, n: nat, i: nat, word: string, k: nat)
    requires n <= k < |r.answers|
    requires forall m :: 0 <= m < |r.answers| && m != k ==> FieldOf(r.answers[m], i) != word
    ensures ValidCountUpTo(r, n, i, word) == 0
  {
    if n > 0 {
      ValidCountNone(r, n - 1, i, word, k);
    }
  }

  /** An accepted word that no other submitted answer gives in that category scores 10. */
  lemma UniqueWordScoresTen(r: Round, k: nat, i: nat)
    requires k < |r.answers| && Valid(r, r.answers[k], i, FieldOf(r.answers[k], i))
    requires forall m :: 0 <= m < |r.answers| && m != k ==> FieldOf(r.answers[m], i) != FieldOf(r.answers[k], i)
    ensures CategoryPoints(r, r.answers[k], i) == 10
  {
    ValidCountOnly(r, |r.answers|, k, i, FieldOf(r.answers[k], i));
  }

  /** An empty field or a rejected word scores 0. */
  lemma RejectedScoresZero(r: Round, answer: string, i: nat)
    requires FieldOf(answer, i) == "" || !IsAccepted(r, i, FieldOf(answer, i))
    ensures CategoryPoints(r, answer, i) == 0
  {
  }

  lemma WordPointsValues(r: Round, i: nat, w: string)
    ensures var c := WordPoints(r, i, w); c == 0 || c == 5 || c == 10
  {
  }

  lemma FiveStep(p: int, c: int, n: int)
    requires p % 5 == 0 && p <= 10 * n
    requires c == 0 || c == 5 || c == 10
    ensures (p + c) % 5 == 0 && p + c <= 10 * (n + 1)
  {
    assert p + c == 5 * (p / 5 + c / 5);
  }

  lemma {:induction false} FieldsPointsRange(r: Round, fs: seq<string>)
    ensures FieldsPoints(r, fs) <= 10 * |fs|
    ensures FieldsPoints(r, fs) % 5 == 0
  {
    if fs != [] {
      var i := |fs| - 1;
      FieldsPointsRange(r, fs[..i]);
      WordPointsValues(r, i, fs[i]);
      FiveStep(FieldsPoints(r, fs[..i]), WordPoints(r, i, fs[i]), |fs[..i]|);
    }
  }

  /** A member's round score is a multiple of 5 between 0 and 50. */
  lemma RoundPointsRange(r: Round, answer: string)
    ensures 0 <= RoundPoints(r, answer) <= 50
    ensures RoundPoints(r, answer) % 5 == 0
  {
    FieldsPointsRange(r, Fields(answer));
  }

  function CategoryPointsUpTo(r: Round, answer: string, n: nat): nat
  {
    if n == 0 then 0 else CategoryPointsUpTo(r, answer, n - 1) + CategoryPoints(r, answer, n - 1)
  }

  lemma {:induction false} FieldsPointsSum(r: Round, fs: seq<string>, answer: string)
    requires |fs| <= |Fields(answer)| && fs == Fields(answer)[..|fs|]
    ensures FieldsPoints(r, fs) == CategoryPointsUpTo(r, answer, |fs|)
  {
    if fs != [] {
      var i := |fs| - 1;
      assert fs[..i] == Fields(answer)[..i];
      FieldsPointsSum(r, fs[..i], answer);
    }
  }

  lemma {:induction false} CategoryPointsBeyond(r: Round, answer: string, n: nat)
    requires |Fields(answer)| <= n
    ensures CategoryPointsUpTo(r, answer, n) == CategoryPointsUpTo(r, answer, |Fields(answer)|)
  {
    if n > |Fields(answer)| {
      CategoryPointsBeyond(r, answer, n - 1);
      assert FieldOf(answer, n - 1) == "";
      assert CategoryPoints(r, answer, n - 1) == WordPoints(r, n - 1, "") == 0;
    }
  }

  /** A member's round score is the sum of its five category scores (missing fields score 0). */
  lemma RoundPointsIsCategorySum(r: Round, answer: string)
    ensures RoundPoints(r, answer) == CategoryPointsUpTo(r, answer, Categories)
  {
    var fs := Fields(answer);
    assert fs == fs[..|fs|];
    FieldsPointsSum(r, fs, answer);
    CategoryPointsBeyond(r, answer, Categories);
  }

  lemma {:induction false} EmptyFieldsScoreZero(r: Round, fs: seq<string>)
    requires forall i :: 0 <= i < |fs| ==> fs[i] == ""
    ensures FieldsPoints(r, fs) == 0
  {
    if fs != [] {
      EmptyFieldsScoreZero(r, fs[..|fs| - 1]);
    }
  }

  /** A member who submitted nothing, or only empty fields, scores 0. */
  lemma EmptyAnswerScoresZero(r: Round, answer: string)
    requires forall i :: 0 <= i < Categories ==> FieldOf(answer, i) == ""
    ensures RoundPoints(r, answer) == 0
  {
    var fs := Fields(answer);
    forall i | 0 <= i < |fs| ensures fs[i] == "" {
      assert FieldOf(answer, i) == fs[i];
    }
    EmptyFieldsScoreZero(r, fs);
  }

  // ---------------------------------------------------------------------
  // The vote format

  /** How a `category:word` veto entry is written. */
  function EntryText(e: (int, string)): string
  {
    IntToString(e.0) + ":" + e.1
  }

  function EntryTexts(es: seq<(int, string)>): seq<string>
  {
    if es == [] then [] else [EntryText(es[0])] + EntryTexts(es[1..])
  }

  /** A vote string listing the given vetoes, each followed by `;`. */
  function VoteText(es: seq<(int, string)>): string
  {
    Terminated(EntryTexts(es), ';')
  }

  /** The entries a well-formed vote string lists are recovered in order and with repetitions. */
  predicate WellFormedEntry(e: (int, string))
  {
    IntMin <= e.0 <= IntMax && e.1 != "" && ';' !in e.1 && ':' !in e.1
  }

  lemma {:induction false} NatToStringHasOnlyDigits(n: nat)
    ensures forall c :: c in NatToString(n) ==> IsDigit(c)
    decreases n
  {
    if n >= 10 {
      NatToStringHasOnlyDigits(n / 10);
    }
  }

  lemma IntToStringHasNoSeparator(i: int)
    ensures ';' !in IntToString(i) && ':' !in IntToString(i) && ',' !in IntToString(i)
  {
    NatToStringHasOnlyDigits(if i < 0 then -i else i);
  }

  lemma EntryRoundTrip(e: (int, string))
    requires WellFormedEntry(e)
    ensures ';' !in EntryText(e)
    ensures VetoEntry(EntryText(e)) == Some(e)
  {
    IntToStringHasNoSeparator(e.0);
    var kv := [IntToString(e.0), e.1];
    assert EntryText(e) == Join(kv, ':');
    TokensOfJoin(kv, ':');
    StoiOfIntToString(e.0, []);
    assert IntToString(e.0) + [] == IntToString(e.0);
  }

  lemma {:induction false} EntryTextsRoundTrip(es: seq<(int, string)>)
    requires forall k :: 0 <= k < |es| ==> WellFormedEntry(es[k])
    ensures |EntryTexts(es)| == |es|
    ensures forall t :: t in EntryTexts(es) ==> ';' !in t
    ensures EntriesOf(EntryTexts(es)) == es
  {
    if es != [] {
      var last := es[|es| - 1];
      EntryTextsAppend(es[..|es| - 1], last);
      assert es == es[..|es| - 1] + [last];
      EntryTextsRoundTrip(es[..|es| - 1]);
      EntryRoundTrip(last);
      var ts := EntryTexts(es);
      assert ts[..|ts| - 1] == EntryTexts(es[..|es| - 1]);
    }
  }

  lemma {:induction false} EntryTextsAppend(es: seq<(int, string)>, e: (int, string))
    ensures EntryTexts(es + [e]) == EntryTexts(es) + [EntryText(e)]
  {
    if es != [] {
      assert (es + [e])[1..] == es[1..] + [e];
      EntryTextsAppend(es[1..], e);
    }
  }

  /** A vote string written as `category:word;` entries is read back as exactly those entries. */
  lemma VoteRoundTrip(es: seq<(int, string)>)
    requires forall k :: 0 <= k < |es| ==> WellFormedEntry(es[k])
    ensures VetoEntries(VoteText(es)) == es
  {
    EntryTextsRoundTrip(es);
    TokensOfTerminated(EntryTexts(es), ';');
  }

  /**
   * Vetoes are not de-duplicated per voter: adding one more vote string adds
   * every entry it lists, repetitions included.
   */
  lemma VetoesAddUp(votes: seq<string>, es: seq<(int, string)>, i: int, word: string)
    requires forall k :: 0 <= k < |es| ==> WellFormedEntry(es[k])
    ensures Vetoes(votes + [VoteText(es)], i, word) == Vetoes(votes, i, word) + Count(es, (i, word))
  {
    VoteRoundTrip(es);
    var vs := votes + [VoteText(es)];
    assert vs[..|vs| - 1] == votes;
    CountAppend(AllVetoEntries(votes), es, (i, word));
  }

  /**
   * The two-player case: two answers with the same first-category word and no
   * vetoes at all score 5 each for that category.
   */
  lemma SharedWordWithoutVetoes(a: string, b: string, word: string)
    requires FieldOf(a, 0) == word && FieldOf(b, 0) == word && word != ""
    ensures var r := RoundOf([a, b], ["", ""], 2);
      CategoryPoints(r, a, 0) == 5 && CategoryPoints(r, b, 0) == 5
  {
    var r := RoundOf([a, b], ["", ""], 2);
    assert AllVetoEntries(["", ""]) == [] by {
      assert ["", ""][..1] == [""];
      assert [""][..0] == [];
    }
    assert r.vetoes == [];
    SharedWordScoresFive(r, 0, 1, 0);
  }
}
