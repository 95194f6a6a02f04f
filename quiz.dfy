/** The quiz rules of client/Authed.tsx: the in-place shuffle, the choice of
    questions and start offsets, which guess outcome is displayed, and the
    Previous/Next navigation guards. */
module Quiz {
  import opened Wrappers
  import opened Sequences
  import opened GuessMatcher

  // ---------------------------------------------------------------------
  // Randomness: each call of `Math.random()` is one draw from [0, 1),
  // passed in as an argument.
  // ---------------------------------------------------------------------

  predicate IsDraw(u: real) {
    0.0 <= u < 1.0
  }

  predicate AllDraws(us: seq<real>) {
    forall k :: 0 <= k < |us| ==> IsDraw(us[k])
  }

  /** `Math.floor(u * m)` for a draw `u`: an integer in [0, m), or 0 when
      `m` is 0. */
  function RandomBelow(u: real, m: nat): (r: int)
    requires IsDraw(u)
    ensures m == 0 ==> r == 0
    ensures m > 0 ==> 0 <= r < m
  {
    assert 0.0 <= u * m as real <= m as real;
    assert m > 0 ==> u * m as real < m as real;
    (u * m as real).Floor
  }

  /** Every integer of [0, m) is the outcome of some draw. */
  lemma RandomBelowReaches(m: nat, k: nat)
    requires k < m
    ensures IsDraw(k as real / m as real)
    ensures RandomBelow(k as real / m as real, m) == k
  {
    var M := m as real;
    var K := k as real;
    assert 0.0 <= K < M;
    var u := K / M;
    TimesDivisor(K, M);
    assert u * M < 1.0 * M;
    BelowOne(u, M);
  }

  lemma TimesDivisor(K: real, M: real)
    requires M != 0.0
    ensures (K / M) * M == K
  {}

  lemma BelowOne(u: real, M: real)
    requires M > 0.0 && u * M < 1.0 * M
    ensures u < 1.0
  {}

  // ---------------------------------------------------------------------
  // shuffle: Fisher–Yates, in place.
  // ---------------------------------------------------------------------

  /** `s` with the elements at `i` and `j` exchanged. */
  function SwapAt<T>(s: seq<T>, i: nat, j: nat): (r: seq<T>)
    requires i < |s| && j < |s|
    ensures |r| == |s|
  {
    s[i := s[j]][j := s[i]]
  }

  /** The partner of position `i` in an array of length `n`:
      `Math.floor(Math.random() * (n - i)) + i`. */
  function Partner(u: real, n: nat, i: nat): (j: nat)
    requires IsDraw(u) && i < n
    ensures i <= j < n
  {
    RandomBelow(u, n - i) + i
  }

  /** No position from `i` on is excluded as a partner: each is chosen by
      some draw. */
  lemma PartnerReachesAll(n: nat, i: nat, j: nat)
    requires i <= j < n
    ensures IsDraw((j - i) as real / (n - i) as real)
    ensures Partner((j - i) as real / (n - i) as real, n, i) == j
  {
    RandomBelowReaches(n - i, j - i);
  }

  /** Enough draws for the swaps of an array of length `n`, one per
      iteration of the loop. */
  predicate DrawsFor(rand: seq<real>, n: nat) {
    AllDraws(rand) && |rand| >= n - 1
  }

  /** The contents the loop of `shuffle` leaves behind when it resumes at
      position `i` on contents `s`. */
  function ShuffledFrom<T>(s: seq<T>, rand: seq<real>, i: nat): seq<T>
    requires DrawsFor(rand, |s|) && i <= |s|
    decreases |s| - i
  {
    if i < |s| - 1 then ShuffledFrom(SwapAt(s, i, Partner(rand[i], |s|, i)), rand, i + 1)
    else s
  }

  /** The shuffle is a permutation: same length, same multiset. */
  lemma SwapPermutes<T>(s: seq<T>, i: nat, j: nat)
    requires i < |s| && j < |s|
    ensures multiset(SwapAt(s, i, j)) == multiset(s)
  {
    var t := s[i := s[j]];
    assert multiset(t) == multiset(s) - multiset{s[i]} + multiset{s[j]};
    assert multiset(t[j := s[i]]) == multiset(t) - multiset{t[j]} + multiset{s[i]};
  }

  lemma {:induction false} ShufflePermutes<T>(s: seq<T>, rand: seq<real>, i: nat)
    requires DrawsFor(rand, |s|) && i <= |s|
    ensures |ShuffledFrom(s, rand, i)| == |s|
    ensures multiset(ShuffledFrom(s, rand, i)) == multiset(s)
    decreases |s| - i
  {
    if i < |s| - 1 {
      var j := Partner(rand[i], |s|, i);
      SwapPermutes(s, i, j);
      ShufflePermutes(SwapAt(s, i, j), rand, i + 1);
    }
  }

  /** The positions before `i` are never touched again. */
  lemma {:induction false} ShuffleKeepsPrefix<T>(s: seq<T>, rand: seq<real>, i: nat)
    requires DrawsFor(rand, |s|) && i <= |s|
    ensures |ShuffledFrom(s, rand, i)| == |s|
    ensures ShuffledFrom(s, rand, i)[..i] == s[..i]
    decreases |s| - i
  {
    ShufflePermutes(s, rand, i);
    if i < |s| - 1 {
      var s' := SwapAt(s, i, Partner(rand[i], |s|, i));
      ShuffleKeepsPrefix(s', rand, i + 1);
      assert ShuffledFrom(s', rand, i + 1)[..i] == ShuffledFrom(s', rand, i + 1)[..i + 1][..i];
      assert s'[..i + 1][..i] == s[..i];
    }
  }

  /** No element occurs twice. */
  predicate Distinct<T(==)>(s: seq<T>) {
    forall a, b :: 0 <= a < b < |s| ==> s[a] != s[b]
  }

  /** Shuffling a sequence without repetitions gives one without
      repetitions. */
  lemma {:induction false} ShuffleKeepsDistinct<T>(s: seq<T>, rand: seq<real>, i: nat)
    requires DrawsFor(rand, |s|) && i <= |s|
    requires Distinct(s)
    ensures Distinct(ShuffledFrom(s, rand, i))
    decreases |s| - i
  {
    if i < |s| - 1 {
      var j := Partner(rand[i], |s|, i);
      var s' := SwapAt(s, i, j);
      forall a, b | 0 <= a < b < |s'| ensures s'[a] != s'[b] {
        var a' := if a == i then j else if a == j then i else a;
        var b' := if b == i then j else if b == j then i else b;
        assert s'[a] == s[a'] && s'[b] == s[b'] && a' != b';
      }
      ShuffleKeepsDistinct(s', rand, i + 1);
    }
  }

  /** `shuffle`: swaps in place and returns the same array. */
  method Shuffle<T>(arr: array<T>, rand: seq<real>) returns (r: array<T>)
    requires DrawsFor(rand, arr.Length)
    modifies arr
    ensures r == arr
    ensures arr[..] == ShuffledFrom(old(arr[..]), rand, 0)
  {
    var i := 0;
    while i < arr.Length - 1
      invariant 0 <= i <= arr.Length
      invariant DrawsFor(rand, |arr[..]|)
      invariant ShuffledFrom(arr[..], rand, i) == ShuffledFrom(old(arr[..]), rand, 0)
      decreases arr.Length - i
    {
      var j := RandomBelow(rand[i], arr.Length - i) + i;
      assert arr[..][i := arr[j]][j := arr[i]] == SwapAt(arr[..], i, j);
      var tmp := arr[i];
      arr[i] := arr[j];
      arr[j] := tmp;
      i := i + 1;
    }
    return arr;
  }

  // ---------------------------------------------------------------------
  // Question generation.
  // ---------------------------------------------------------------------

  /** How long each clip plays. */
  const PLAYBACK_LENGTH_MS: int := 2000

  /** How many questions a quiz has at most. */
  const QUESTION_COUNT: nat := 10

  datatype Question = Question(trackIdx: nat, startPositionMs: int)

  /** A clip starts at 0 in a track of at most two seconds, and otherwise
      early enough for the whole clip to end before the track does. */
  predicate ClipFits(startPositionMs: int, durationMs: int) {
    && 0 <= startPositionMs
    && (durationMs <= PLAYBACK_LENGTH_MS ==> startPositionMs == 0)
    && (durationMs > PLAYBACK_LENGTH_MS ==> startPositionMs + PLAYBACK_LENGTH_MS < durationMs)
  }

  /** `Math.floor(Math.random() * Math.max(durationMs - 2000, 0))`. */
  function StartPosition(durationMs: int, u: real): (r: int)
    requires IsDraw(u)
    ensures ClipFits(r, durationMs)
  {
    var room := if durationMs - PLAYBACK_LENGTH_MS > 0 then durationMs - PLAYBACK_LENGTH_MS else 0;
    RandomBelow(u, room)
  }

  /** `[...new Array(n)].map((_, idx) => idx)`. */
  function Indices(n: nat): (r: seq<nat>)
    ensures |r| == n
  {
    seq(n, k => k)
  }

  /** The shuffled track indices. */
  function Order(trackCount: nat, swapRand: seq<real>): seq<nat>
    requires DrawsFor(swapRand, trackCount)
  {
    ShuffledFrom(Indices(trackCount), swapRand, 0)
  }

  /** The shuffled indices are 0 .. trackCount - 1, each exactly once. */
  lemma OrderIsPermutation(trackCount: nat, swapRand: seq<real>)
    requires DrawsFor(swapRand, trackCount)
    ensures |Order(trackCount, swapRand)| == trackCount
    ensures Distinct(Order(trackCount, swapRand))
    ensures forall k :: 0 <= k < trackCount ==> Order(trackCount, swapRand)[k] < trackCount
    ensures forall x: nat :: x < trackCount ==> x in Order(trackCount, swapRand)
  {
    var indices := Indices(trackCount);
    var order := Order(trackCount, swapRand);
    ShufflePermutes(indices, swapRand, 0);
    ShuffleKeepsDistinct(indices, swapRand, 0);
    forall k | 0 <= k < trackCount ensures order[k] < trackCount {
      assert order[k] in multiset(indices);
    }
    forall x: nat | x < trackCount ensures x in order {
      assert indices[x] == x;
      assert x in multiset(order);
    }
  }

  /** One draw per question for its start offset. */
  predicate StartDraws(startRand: seq<real>, trackCount: nat) {
    AllDraws(startRand) && |startRand| >= Min(trackCount, QUESTION_COUNT)
  }

  /** `questionToTrackIdxs.map(...)`: the question for each chosen index. */
  function MakeQuestions(tracks: seq<PlaylistTrack>, chosen: seq<nat>, startRand: seq<real>): (qs: seq<Question>)
    requires forall k :: 0 <= k < |chosen| ==> chosen[k] < |tracks|
    requires AllDraws(startRand) && |startRand| >= |chosen|
    ensures |qs| == |chosen|
  {
    seq(|chosen|, k requires 0 <= k < |chosen| =>
      Question(chosen[k], StartPosition(tracks[chosen[k]].durationMs, startRand[k])))
  }

  /** The questions of a quiz over `tracks`: the first ten shuffled
      indices, each with a start offset. */
  function Questions(tracks: seq<PlaylistTrack>, swapRand: seq<real>, startRand: seq<real>): seq<Question>
    requires DrawsFor(swapRand, |tracks|) && StartDraws(startRand, |tracks|)
  {
    OrderIsPermutation(|tracks|, swapRand);
    MakeQuestions(tracks, Order(|tracks|, swapRand)[..Min(|tracks|, QUESTION_COUNT)], startRand)
  }

  /** The track index of each question. */
  function TrackIdxs(qs: seq<Question>): (r: seq<nat>)
    ensures |r| == |qs|
  {
    seq(|qs|, k requires 0 <= k < |qs| => qs[k].trackIdx)
  }

  /** At most ten questions, one per track up to ten, no track asked twice,
      every index a valid track and every clip inside its track; on a
      playlist of at most ten tracks every track is asked. */
  lemma QuestionsWellFormed(tracks: seq<PlaylistTrack>, swapRand: seq<real>, startRand: seq<real>)
    requires DrawsFor(swapRand, |tracks|) && StartDraws(startRand, |tracks|)
    ensures var qs := Questions(tracks, swapRand, startRand);
      && |qs| == Min(|tracks|, QUESTION_COUNT)
      && (forall k :: 0 <= k < |qs| ==> qs[k].trackIdx < |tracks|)
      && (forall k :: 0 <= k < |qs| ==> ClipFits(qs[k].startPositionMs, tracks[qs[k].trackIdx].durationMs))
      && Distinct(TrackIdxs(qs))
      && (|tracks| <= QUESTION_COUNT ==> forall x: nat :: x < |tracks| ==> x in TrackIdxs(qs))
  {
    OrderIsPermutation(|tracks|, swapRand);
    var order := Order(|tracks|, swapRand);
    var qs := Questions(tracks, swapRand, startRand);
    assert TrackIdxs(qs) == order[..Min(|tracks|, QUESTION_COUNT)];
    if |tracks| <= QUESTION_COUNT {
      assert TrackIdxs(qs) == order;
    }
  }

  /** Question generation of the playlist-select handler: shuffle the
      indices in place, keep the first ten, pick each start offset. */
  method GenerateQuestions(tracks: seq<PlaylistTrack>, swapRand: seq<real>, startRand: seq<real>)
    returns (questions: seq<Question>)
    requires DrawsFor(swapRand, |tracks|) && StartDraws(startRand, |tracks|)
    ensures questions == Questions(tracks, swapRand, startRand)
  {
    var indices := new nat[|tracks|](k => k);
    assert indices[..] == Indices(|tracks|);
    var shuffled := Shuffle(indices, swapRand);
    OrderIsPermutation(|tracks|, swapRand);
    var chosen := shuffled[..Min(|tracks|, QUESTION_COUNT)];
    questions := MakeQuestions(tracks, chosen, startRand);
  }

  // ---------------------------------------------------------------------
  // What the question screen displays after a guess.
  // ---------------------------------------------------------------------

  /** `guessedTracks`: null until a guess is submitted, then the result of
      `computeGuess` over the playlist. */
  method GuessedTracks(guessed: bool, currentGuess: string, tracks: seq<PlaylistTrack>)
    returns (r: Option<seq<PlaylistTrack>>)
    ensures !guessed ==> r == None
    ensures guessed ==> r.Some? && forall x :: x in r.value ==> x in tracks
    ensures guessed && GuessFits(currentGuess, tracks) ==> r == Some(BestTracks(Normalize(currentGuess), tracks))
  {
    if !guessed {
      return None;
    }
    var lowest := ComputeGuess(currentGuess, tracks);
    return Some(lowest);
  }

  /** `guessedTrack`: the single guessed track, if there is exactly one. */
  function GuessedTrack(guessedTracks: Option<seq<PlaylistTrack>>): Option<PlaylistTrack> {
    if guessedTracks.Some? && |guessedTracks.value| == 1 then Some(guessedTracks.value[0]) else None
  }

  /** The "Not specific enough! Type some more." message. */
  predicate NotSpecificEnough(guessedTracks: Option<seq<PlaylistTrack>>) {
    guessedTracks.Some? && |guessedTracks.value| > 2
  }

  /** A result shows a guessed track exactly when it has one track, the
      message exactly when it has more than two, never both, and neither
      when it has exactly two. */
  lemma DisplayRules(guessedTracks: Option<seq<PlaylistTrack>>)
    ensures GuessedTrack(guessedTracks).Some? <==> guessedTracks.Some? && |guessedTracks.value| == 1
    ensures GuessedTrack(guessedTracks).Some? ==> GuessedTrack(guessedTracks).value in guessedTracks.value
    ensures NotSpecificEnough(guessedTracks) <==> guessedTracks.Some? && |guessedTracks.value| > 2
    ensures !(GuessedTrack(guessedTracks).Some? && NotSpecificEnough(guessedTracks))
    ensures guessedTracks.Some? && |guessedTracks.value| == 2 ==>
              GuessedTrack(guessedTracks) == None && !NotSpecificEnough(guessedTracks)
  {}

  /** A guessed track is shown only when it scores strictly better than
      every other track of the playlist. */
  lemma GuessedTrackIsStrictBest(g: string, tracks: seq<PlaylistTrack>)
    requires GuessedTrack(Some(BestTracks(g, tracks))).Some?
    ensures var x := GuessedTrack(Some(BestTracks(g, tracks))).value;
      x in tracks && forall y :: y in tracks && y != x ==> Score(g, x) < Score(g, y)
  {
    var best := BestTracks(g, tracks);
    assert |best| == 1;
    var x := best[0];
    assert x in best;
    BestTracksNonEmpty(g, tracks);
    SubsequenceMembers(best, tracks);
    BestTracksAreLowest(g, tracks);
    BestTracksKeepTies(g, tracks);
    assert best == [x];
    forall y | y in tracks && y != x ensures Score(g, x) < Score(g, y) {
      assert y !in best;
      var z :| z in tracks && Score(g, z) < Score(g, y);
      assert Score(g, x) <= Score(g, z);
    }
  }

  /** After a guess over a non-empty playlist something is displayed
      unless exactly two tracks are tied. */
  lemma NothingShownOnlyForTwo(g: string, tracks: seq<PlaylistTrack>)
    requires tracks != []
    requires GuessedTrack(Some(BestTracks(g, tracks))).None? && !NotSpecificEnough(Some(BestTracks(g, tracks)))
    ensures |BestTracks(g, tracks)| == 2
  {
    BestTracksNonEmpty(g, tracks);
  }

  // ---------------------------------------------------------------------
  // Navigation between questions.
  // ---------------------------------------------------------------------

  /** The state of the question screen. */
  datatype QuizState = QuizState(
    tracks: seq<PlaylistTrack>,
    questions: seq<Question>,
    questionIdx: int,
    currentGuess: string,
    guessed: bool)

  /** The current question exists, so `questions[questionIdx]` is defined. */
  predicate OnQuestion(st: QuizState) {
    0 <= st.questionIdx < |st.questions|
  }

  /** Every question names a track of the playlist. */
  predicate QuestionsValid(st: QuizState) {
    forall k :: 0 <= k < |st.questions| ==> st.questions[k].trackIdx < |st.tracks|
  }

  /** The playlist-select handler, from the state in which the playlist
      chooser is shown: new tracks and questions, first question. The
      handler itself sets only the tracks, the questions and the index; the
      guess is empty and not guessed because the chooser appears only before
      any playlist is selected, when both still hold their initial values. */
  function SelectPlaylist(tracks: seq<PlaylistTrack>, swapRand: seq<real>, startRand: seq<real>): QuizState
    requires DrawsFor(swapRand, |tracks|) && StartDraws(startRand, |tracks|)
  {
    QuizState(tracks, Questions(tracks, swapRand, startRand), 0, "", false)
  }

  /** The first question, played right away, exists exactly when the
      playlist is not empty. */
  lemma SelectPlaylistStarts(tracks: seq<PlaylistTrack>, swapRand: seq<real>, startRand: seq<real>)
    requires DrawsFor(swapRand, |tracks|) && StartDraws(startRand, |tracks|)
    ensures QuestionsValid(SelectPlaylist(tracks, swapRand, startRand))
    ensures OnQuestion(SelectPlaylist(tracks, swapRand, startRand)) <==> tracks != []
  {
    QuestionsWellFormed(tracks, swapRand, startRand);
  }

  /** `goToQuestion`: move to a question and clear the guess. */
  function GoToQuestion(st: QuizState, questionIdx: int): QuizState {
    st.(questionIdx := questionIdx, currentGuess := "", guessed := false)
  }

  /** Previous is disabled at the first question. */
  predicate PreviousDisabled(st: QuizState) {
    st.questionIdx <= 0
  }

  /** Next is disabled once the index reaches the number of TRACKS less
      one, as the component is written. */
  predicate NextDisabledAsWritten(st: QuizState) {
    st.questionIdx >= |st.tracks| - 1
  }

  /** Next disabled at the last question. */
  predicate NextDisabled(st: QuizState) {
    st.questionIdx >= |st.questions| - 1
  }

  /** A click on Previous; None while the button is disabled. */
  function Previous(st: QuizState): Option<QuizState> {
    if PreviousDisabled(st) then None else Some(GoToQuestion(st, st.questionIdx - 1))
  }

  /** A click on Next with the guard as written. */
  function NextAsWritten(st: QuizState): Option<QuizState> {
    if NextDisabledAsWritten(st) then None else Some(GoToQuestion(st, st.questionIdx + 1))
  }

  /** A click on Next with the guard on the number of questions. */
  function Next(st: QuizState): Option<QuizState> {
    if NextDisabled(st) then None else Some(GoToQuestion(st, st.questionIdx + 1))
  }

  /** Previous steps back one question, stays on a question and clears the
      guess; it is refused only at the first question. */
  lemma PreviousStaysOnQuestion(st: QuizState)
    requires OnQuestion(st)
    ensures Previous(st).None? <==> st.questionIdx == 0
    ensures Previous(st).Some? ==>
      && OnQuestion(Previous(st).value)
      && Previous(st).value.questionIdx == st.questionIdx - 1
      && Previous(st).value.currentGuess == "" && !Previous(st).value.guessed
  {}

  /** Next steps forward one question, stays on a question and clears the
      guess; it is refused only at the last question. */
  lemma NextStaysOnQuestion(st: QuizState)
    requires OnQuestion(st)
    ensures Next(st).None? <==> st.questionIdx == |st.questions| - 1
    ensures Next(st).Some? ==>
      && OnQuestion(Next(st).value)
      && Next(st).value.questionIdx == st.questionIdx + 1
      && Next(st).value.currentGuess == "" && !Next(st).value.guessed
  {}

  /** On a playlist of at most ten tracks there is one question per track,
      and the written guard is the corrected one. */
  lemma NextAsWrittenOnSmallPlaylists(tracks: seq<PlaylistTrack>, swapRand: seq<real>, startRand: seq<real>, st: QuizState)
    requires DrawsFor(swapRand, |tracks|) && StartDraws(startRand, |tracks|)
    requires |tracks| <= QUESTION_COUNT
    requires st.tracks == tracks && st.questions == Questions(tracks, swapRand, startRand)
    ensures NextAsWritten(st) == Next(st)
  {
    QuestionsWellFormed(tracks, swapRand, startRand);
  }

  /** On a playlist of more than ten tracks Next stays enabled on the last
      question and leads past the end of `questions`. */
  lemma NextAsWrittenOverruns(tracks: seq<PlaylistTrack>, swapRand: seq<real>, startRand: seq<real>)
    requires DrawsFor(swapRand, |tracks|) && StartDraws(startRand, |tracks|)
    requires |tracks| > QUESTION_COUNT
    ensures var st := GoToQuestion(SelectPlaylist(tracks, swapRand, startRand), QUESTION_COUNT - 1);
      && OnQuestion(st)
      && NextAsWritten(st).Some?
      && !OnQuestion(NextAsWritten(st).value)
  {
    QuestionsWellFormed(tracks, swapRand, startRand);
  }
}
