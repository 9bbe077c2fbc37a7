/**
 * The counting loops of the scoring and verification code: the veto tally,
 * the tally of accepted submissions, one player's round points, and the
 * `VERIFICATION_START` payload built from per-category word sets. Each is
 * proved to compute the declarative definition it stands for.
 */
module Tallies {
  import opened Options
  import opened Text
  import opened Scoring
  import opened Lobby

  /** A `std::map<int, std::map<std::string, int>>` entry read through `operator[]`. */
  function TallyOf(m: map<(int, string), nat>, e: (int, string)): nat
  {
    if e in m then m[e] else 0
  }

  lemma CountSnoc<T>(s: seq<T>, e: T)
    ensures forall x :: Count(s + [e], x) == Count(s, x) + (if e == x then 1 else 0)
  {
    assert (s + [e])[..|s|] == s;
  }

  /** Incrementing one entry of a tally that counts `xs` makes it count `xs + [e]`. */
  lemma TallyBump(m: map<(int, string), nat>, xs: seq<(int, string)>, e: (int, string))
    requires forall x :: TallyOf(m, x) == Count(xs, x)
    ensures forall x :: TallyOf(m[e := TallyOf(m, e) + 1], x) == Count(xs + [e], x)
  {
    CountSnoc(xs, e);
  }

  lemma EntriesOfSnoc(base: seq<(int, string)>, parts: seq<string>, j: nat)
    requires j < |parts|
    ensures VetoEntry(parts[j]).None? ==> base + EntriesOf(parts[..j + 1]) == base + EntriesOf(parts[..j])
    ensures VetoEntry(parts[j]).Some? ==>
      base + EntriesOf(parts[..j + 1]) == (base + EntriesOf(parts[..j])) + [VetoEntry(parts[j]).value]
  {
    assert parts[..j + 1][..j] == parts[..j];
  }

  lemma AllVetoEntriesSnoc(vs: seq<string>, n: nat)
    requires n < |vs|
    ensures AllVetoEntries(vs[..n + 1]) == AllVetoEntries(vs[..n]) + VetoEntries(vs[n])
  {
    assert vs[..n + 1][..n] == vs[..n];
  }

  /** One `idx:word` entry of a vote string: split on `:`, exactly two parts, `stoi` of the first. */
  method ReadVeto(part: string) returns (entry: Option<(int, string)>)
    ensures entry == VetoEntry(part)
  {
    var kv := Split(part, ':');
    entry := None;
    if |kv| == 2 {
      var index := Stoi(kv[0]);
      if index.Some? {
        entry := Some((index.value, kv[1]));
      }
    }
  }

  /** The votes of one vote string added to a tally. */
  method TallyVote(vetos: map<(int, string), nat>, vote: string, ghost base: seq<(int, string)>)
    returns (after: map<(int, string), nat>)
    requires forall e :: TallyOf(vetos, e) == Count(base, e)
    ensures forall e :: TallyOf(after, e) == Count(base + VetoEntries(vote), e)
  {
    var parts := Split(vote, ';');
    after := vetos;
    assert base + EntriesOf(parts[..0]) == base;
    for j := 0 to |parts|
      invariant forall e :: TallyOf(after, e) == Count(base + EntriesOf(parts[..j]), e)
    {
      EntriesOfSnoc(base, parts, j);
      ghost var seen := base + EntriesOf(parts[..j]);
      var entry := ReadVeto(parts[j]);
      if entry.Some? {
        TallyBump(after, seen, entry.value);
        after := after[entry.value := TallyOf(after, entry.value) + 1];
      }
    }
    assert parts[..|parts|] == parts;
  }

  /** The first loop of `calculateScores`: every `idx:word` entry of every vote string, counted. */
  method TallyVetoes(votes: map<int, string>) returns (vetos: map<(int, string), nat>)
    ensures forall e :: TallyOf(vetos, e) == Count(AllVetoEntries(Values(votes)), e)
  {
    var ids := KeysInOrder(votes.Keys);
    ghost var vs := Values(votes);
    vetos := map[];
    for n := 0 to |ids|
      invariant forall e :: TallyOf(vetos, e) == Count(AllVetoEntries(vs[..n]), e)
    {
      AllVetoEntriesSnoc(vs, n);
      vetos := TallyVote(vetos, votes[ids[n]], AllVetoEntries(vs[..n]));
    }
    assert vs[..|ids|] == vs;
  }

  /** Which words an answer string gives validly, read off its tokens. */
  lemma ValidField(r: Round, a: string, parts: seq<string>, c: nat, w: string)
    requires parts == Tokens(a, ';')
    ensures Valid(r, a, c, w) <==> c < |parts| && c < Categories && parts[c] == w && w != "" && IsAccepted(r, c, w)
  {
    FieldOfIsToken(a, c);
  }

  /** The invariant of the inner loop of the second tally, after field `i` of answer `n`. */
  ghost predicate CountedUpTo(counts: map<(int, string), nat>, r: Round, n: nat, i: nat)
    requires n < |r.answers|
  {
    forall c: nat, w :: TallyOf(counts, (c, w))
      == ValidCountUpTo(r, n, c, w) + (if c < i && Valid(r, r.answers[n], c, w) then 1 else 0)
  }

  lemma CountedStep(counts: map<(int, string), nat>, r: Round, n: nat, parts: seq<string>, i: nat, hit: bool)
    requires n < |r.answers| && parts == Tokens(r.answers[n], ';') && i < |parts| && i < Categories
    requires CountedUpTo(counts, r, n, i)
    requires hit <==> parts[i] != "" && IsAccepted(r, i, parts[i])
    ensures CountedUpTo(if hit then counts[(i, parts[i]) := TallyOf(counts, (i, parts[i])) + 1] else counts, r, n, i + 1)
  {
    var next := if hit then counts[(i, parts[i]) := TallyOf(counts, (i, parts[i])) + 1] else counts;
    forall c: nat, w
      ensures TallyOf(next, (c, w))
        == ValidCountUpTo(r, n, c, w) + (if c < i + 1 && Valid(r, r.answers[n], c, w) then 1 else 0)
    {
      ValidField(r, r.answers[n], parts, c, w);
    }
  }

  lemma CountedDone(counts: map<(int, string), nat>, r: Round, n: nat, parts: seq<string>, i: nat)
    requires n < |r.answers| && parts == Tokens(r.answers[n], ';')
    requires i == |parts| || i == Categories
    requires CountedUpTo(counts, r, n, i)
    ensures forall c: nat, w :: TallyOf(counts, (c, w)) == ValidCountUpTo(r, n + 1, c, w)
  {
    forall c: nat, w ensures TallyOf(counts, (c, w)) == ValidCountUpTo(r, n + 1, c, w) {
      ValidField(r, r.answers[n], parts, c, w);
    }
  }

  /** The acceptance test as `calculateScores` writes it out. */
  method Accepts(against: int, members: int) returns (accepted: bool)
    ensures accepted == Accepted(against, members)
  {
    accepted := true;
    if members <= 1 {
      accepted := true;
    } else {
      accepted := against * 2 < members;
    }
  }

  lemma CountedStart(counts: map<(int, string), nat>, r: Round, n: nat)
    requires n < |r.answers|
    requires forall c: nat, w :: TallyOf(counts, (c, w)) == ValidCountUpTo(r, n, c, w)
    ensures CountedUpTo(counts, r, n, 0)
  {
  }

  /** The accepted words of answer `n` added to the tally of the answers before it. */
  method TallyAnswer(counts: map<(int, string), nat>, answer: string, vetos: map<(int, string), nat>,
                     members: int, ghost r: Round, ghost n: nat)
    returns (after: map<(int, string), nat>)
    requires n < |r.answers| && r.answers[n] == answer && r.members == members
    requires forall e :: TallyOf(vetos, e) == Count(r.vetoes, e)
    requires forall c: nat, w :: TallyOf(counts, (c, w)) == ValidCountUpTo(r, n, c, w)
    ensures forall c: nat, w :: TallyOf(after, (c, w)) == ValidCountUpTo(r, n + 1, c, w)
  {
    var parts := Split(answer, ';');
    after := counts;
    CountedStart(after, r, n);
    var i := 0;
    while i < |parts| && i < Categories
      invariant 0 <= i <= Categories && i <= |parts|
      invariant CountedUpTo(after, r, n, i)
    {
      var word := parts[i];
      var hit := false;
      if word != "" {
        hit := Accepts(TallyOf(vetos, (i, word)), members);
      }
      CountedStep(after, r, n, parts, i, hit);
      if hit {
        after := after[(i, word) := TallyOf(after, (i, word)) + 1];
      }
      i := i + 1;
    }
    CountedDone(after, r, n, parts, i);
  }

  /**
   * The second loop of `calculateScores`: for each category and word, how many
   * submitted answers give that word there and have it accepted.
   */
  method TallyValid(answers: map<int, string>, vetos: map<(int, string), nat>, members: int, ghost r: Round)
    returns (counts: map<(int, string), nat>)
    requires r.answers == Values(answers) && r.members == members
    requires forall e :: TallyOf(vetos, e) == Count(r.vetoes, e)
    ensures forall c: nat, w :: TallyOf(counts, (c, w)) == ValidCount(r, c, w)
  {
    var ids := KeysInOrder(answers.Keys);
    counts := map[];
    for n := 0 to |ids|
      invariant forall c: nat, w :: TallyOf(counts, (c, w)) == ValidCountUpTo(r, n, c, w)
    {
      counts := TallyAnswer(counts, answers[ids[n]], vetos, members, r, n);
    }
  }

  lemma FieldsPointsSnoc(r: Round, fs: seq<string>, i: nat)
    requires i < |fs|
    ensures FieldsPoints(r, fs[..i + 1]) == FieldsPoints(r, fs[..i]) + WordPoints(r, i, fs[i])
  {
    assert fs[..i + 1][..i] == fs[..i];
  }

  /** The per-player loop of `calculateScores`: the points one answer string earns. */
  method ScoreAnswer(answer: string, vetos: map<(int, string), nat>, counts: map<(int, string), nat>,
                     members: int, ghost r: Round) returns (points: nat)
    requires r.members == members
    requires forall e :: TallyOf(vetos, e) == Count(r.vetoes, e)
    requires forall c: nat, w :: TallyOf(counts, (c, w)) == ValidCount(r, c, w)
    ensures points == RoundPoints(r, answer)
  {
    var parts := Split(answer, ';');
    ghost var fs := Fields(answer);
    points := 0;
    var i := 0;
    while i < |parts| && i < Categories
      invariant 0 <= i <= Categories && i <= |parts| && i <= |fs|
      invariant forall c :: 0 <= c < i ==> fs[c] == parts[c]
      invariant points == FieldsPoints(r, fs[..i])
    {
      var word := parts[i];
      FieldsPointsSnoc(r, fs, i);
      if word != "" {
        var accepted := Accepts(TallyOf(vetos, (i, word)), members);
        if accepted {
          if TallyOf(counts, (i, word)) == 1 {
            points := points + 10;
          } else {
            points := points + 5;
          }
        }
      }
      i := i + 1;
    }
    assert fs[..i] == fs;
  }

  lemma CategoryWordsSnoc(vs: seq<string>, n: nat, c: nat)
    requires n < |vs|
    ensures CategoryWords(vs[..n + 1], c)
      == if FieldOf(vs[n], c) != "" then Insert(CategoryWords(vs[..n], c), FieldOf(vs[n], c)) else CategoryWords(vs[..n], c)
  {
    assert vs[..n + 1][..n] == vs[..n];
  }

  /** The state of the category sets after field `i` of answer `n`. */
  ghost predicate CollectedUpTo(cats: seq<seq<string>>, vs: seq<string>, n: nat, i: nat)
    requires n < |vs| && |cats| == Categories
  {
    forall c :: 0 <= c < Categories ==>
      cats[c] == if c < i then CategoryWords(vs[..n + 1], c) else CategoryWords(vs[..n], c)
  }

  lemma CollectedStep(cats: seq<seq<string>>, vs: seq<string>, n: nat, parts: seq<string>, i: nat)
    requires n < |vs| && |cats| == Categories && parts == Tokens(vs[n], ';') && i < |parts| && i < Categories
    requires CollectedUpTo(cats, vs, n, i)
    ensures CollectedUpTo(if parts[i] != "" then cats[i := Insert(cats[i], parts[i])] else cats, vs, n, i + 1)
  {
    var next := if parts[i] != "" then cats[i := Insert(cats[i], parts[i])] else cats;
    forall c | 0 <= c < Categories
      ensures next[c] == if c < i + 1 then CategoryWords(vs[..n + 1], c) else CategoryWords(vs[..n], c)
    {
      CategoryWordsSnoc(vs, n, c);
      FieldOfIsToken(vs[n], c);
    }
  }

  lemma CollectedDone(cats: seq<seq<string>>, vs: seq<string>, n: nat, parts: seq<string>, i: nat)
    requires n < |vs| && |cats| == Categories && parts == Tokens(vs[n], ';')
    requires i == |parts| || i == Categories
    requires CollectedUpTo(cats, vs, n, i)
    ensures forall c :: 0 <= c < Categories ==> cats[c] == CategoryWords(vs[..n + 1], c)
  {
    forall c | 0 <= c < Categories ensures cats[c] == CategoryWords(vs[..n + 1], c) {
      CategoryWordsSnoc(vs, n, c);
      FieldOfIsToken(vs[n], c);
    }
  }

  lemma SectionAppended(vs: seq<string>, i: nat, before: string, words: seq<string>)
    requires i < Categories
    requires before == Terminated(SectionsUpTo(vs, i), ';') && words == CategoryWords(vs, i)
    ensures (before + Labels[i] + ":") + Join(words, ',') + ";" == Terminated(SectionsUpTo(vs, i + 1), ';')
  {
    var sections, section := SectionsUpTo(vs, i), Section(vs, i);
    TerminatedSnoc(sections, section, ';');
    assert SectionsUpTo(vs, i + 1) == sections + [section];
    var name, joined := Labels[i], Join(words, ',');
    assert section == name + ":" + joined;
    Regroup(before, name, ":", joined, ";");
  }

  lemma Regroup<T>(a: seq<T>, b: seq<T>, c: seq<T>, d: seq<T>, e: seq<T>)
    ensures a + b + c + d + e == a + (b + c + d) + e
  {
  }

  lemma JoinPrefixSnoc(head: string, ws: seq<string>, j: nat)
    requires j < |ws|
    ensures (if j == 0 then head else head + Join(ws[..j], ',') + ",") + ws[j] == head + Join(ws[..j + 1], ',')
  {
    if j > 0 {
      JoinSnoc(ws[..j], ws[j], ',');
      assert ws[..j + 1] == ws[..j] + [ws[j]];
    } else {
      assert ws[..1] == [ws[0]];
    }
  }

  /**
   * The `VERIFICATION_START` payload of `SUBMIT_ANSWERS`: each answer's first
   * five non-empty fields go into a per-category `std::set`; then each set is
   * written after its label, comma-separated, and closed by `;`.
   */
  method VerificationText(answers: map<int, string>) returns (payload: string)
    ensures payload == VerificationPayload(Values(answers))
  {
    var cats := new seq<string>[Categories](_ => []);
    var ids := KeysInOrder(answers.Keys);
    ghost var vs := Values(answers);
    for n := 0 to |ids|
      invariant forall c :: 0 <= c < Categories ==> cats[c] == CategoryWords(vs[..n], c)
    {
      CollectAnswer(cats, answers[ids[n]], vs, n);
    }
    assert vs[..|ids|] == vs;
    payload := WriteSections(vs, cats[..]);
  }

  /** The second loop of the `SUBMIT_ANSWERS` payload: each category's section written in turn. */
  method WriteSections(ghost vs: seq<string>, sets: seq<seq<string>>) returns (payload: string)
    requires |sets| == Categories && forall c :: 0 <= c < Categories ==> sets[c] == CategoryWords(vs, c)
    ensures payload == VerificationPayload(vs)
  {
    payload := "";
    for i := 0 to Categories
      invariant payload == Terminated(SectionsUpTo(vs, i), ';')
    {
      SectionAppended(vs, i, payload, sets[i]);
      payload := WriteSection(payload, Labels[i], sets[i]);
    }
  }

  /** Answer `n`'s first five non-empty fields inserted into the category sets. */
  method CollectAnswer(cats: array<seq<string>>, answer: string, ghost vs: seq<string>, ghost n: nat)
    requires cats.Length == Categories && n < |vs| && vs[n] == answer
    requires forall c :: 0 <= c < Categories ==> cats[c] == CategoryWords(vs[..n], c)
    modifies cats
    ensures forall c :: 0 <= c < Categories ==> cats[c] == CategoryWords(vs[..n + 1], c)
  {
    var parts := Split(answer, ';');
    var i := 0;
    while i < |parts| && i < Categories
      invariant 0 <= i <= Categories && i <= |parts|
      invariant CollectedUpTo(cats[..], vs, n, i)
    {
      CollectedStep(cats[..], vs, n, parts, i);
      if parts[i] != "" {
        cats[i] := Insert(cats[i], parts[i]);
      }
      i := i + 1;
    }
    CollectedDone(cats[..], vs, n, parts, i);
  }

  /** One section: the label, `:`, the words separated by `,`, and the closing `;`. */
  method WriteSection(payload: string, name: string, words: seq<string>) returns (after: string)
    ensures after == (payload + name + ":") + Join(words, ',') + ";"
  {
    after := payload + name + ":";
    ghost var head := after;
    var first := true;
    for j := 0 to |words|
      invariant first <==> j == 0
      invariant after == head + Join(words[..j], ',')
    {
      JoinPrefixSnoc(head, words, j);
      if !first {
        after := after + ",";
      }
      after := after + words[j];
      first := false;
    }
    assert words[..|words|] == words;
    after := after + ";";
  }
}
