/** The guess matcher of client/utils/computeGuess.ts: a free-text guess is
    normalised, scored against every track title with a substring-anchored
    edit distance, and the tracks tied for the lowest score are returned. */
module GuessMatcher {
  import opened Sequences

  /** The part of a playlist track the quiz looks at. */
  datatype PlaylistTrack = PlaylistTrack(id: string, name: string, durationMs: int)

  // ---------------------------------------------------------------------
  // normalize: `s.toLowerCase().replaceAll(/\s/g, '')`
  // ---------------------------------------------------------------------

  /** The characters matched by `\s` in an ECMAScript regular expression:
      the WhiteSpace and LineTerminator code points. */
  predicate IsWhitespace(c: char) {
    || c == '\t' || c == '\n' || c == '\U{000B}' || c == '\U{000C}' || c == '\r'
    || c == ' ' || c == '\U{00A0}' || c == '\U{1680}'
    || ('\U{2000}' <= c <= '\U{200A}')
    || c == '\U{2028}' || c == '\U{2029}' || c == '\U{202F}' || c == '\U{205F}'
    || c == '\U{3000}' || c == '\U{FEFF}'
  }

  /** Upper-case letters of Basic Latin and Latin-1 Supplement. */
  predicate IsUpper(c: char) {
    ('A' <= c <= 'Z') || ('\U{00C0}' <= c <= '\U{00DE}' && c != '\U{00D7}')
  }

  /** `toLowerCase` on one character (Basic Latin and Latin-1 Supplement). */
  function ToLowerChar(c: char): (r: char)
    ensures !IsUpper(r)
    ensures IsUpper(c) ==> r as int == c as int + 32
    ensures !IsUpper(c) ==> r == c
    ensures IsWhitespace(r) <==> IsWhitespace(c)
  {
    if IsUpper(c) then (c as int + 32) as char else c
  }

  function ToLower(s: string): string {
    seq(|s|, i requires 0 <= i < |s| => ToLowerChar(s[i]))
  }

  /** `replaceAll(/\s/g, '')`: every whitespace character is dropped, every
      other character is kept, in order. */
  function RemoveWhitespace(s: string): (r: string)
    ensures forall c :: c in r ==> !IsWhitespace(c)
    ensures IsSubsequence(r, s)
  {
    if s == [] then []
    else
      var init, last := s[..|s| - 1], s[|s| - 1];
      assert s == init + [last];
      var r0 := RemoveWhitespace(init);
      if IsWhitespace(last) then
        SubsequenceExtend(r0, init, last);
        r0
      else
        SubsequenceSnoc(r0, init, last);
        r0 + [last]
  }

  /** Every character that is not whitespace survives, as often as it
      occurs. */
  lemma {:induction false} RemoveWhitespaceKeeps(s: string)
    ensures forall c :: !IsWhitespace(c) ==> multiset(RemoveWhitespace(s))[c] == multiset(s)[c]
  {
    if s != [] {
      var init, last := s[..|s| - 1], s[|s| - 1];
      assert s == init + [last];
      RemoveWhitespaceKeeps(init);
    }
  }

  /** `normalize`: lower-case, then strip whitespace. The result has no
      whitespace and no upper-case letter and is a subsequence of the
      lower-cased input. */
  function Normalize(s: string): (r: string)
    ensures forall c :: c in r ==> !IsWhitespace(c) && !IsUpper(c)
    ensures IsSubsequence(r, ToLower(s))
  {
    var r := RemoveWhitespace(ToLower(s));
    SubsequenceMembers(r, ToLower(s));
    r
  }

  /** Normalisation never lengthens a string. */
  lemma NormalizeShorter(s: string)
    ensures |Normalize(s)| <= |s|
  {
    SubsequenceLength(Normalize(s), ToLower(s));
  }

  /** Normalisation keeps every lower-cased character that is not
      whitespace, as often as it occurs. */
  lemma NormalizeKeeps(s: string)
    ensures forall c :: !IsWhitespace(c) ==> multiset(Normalize(s))[c] == multiset(ToLower(s))[c]
  {
    RemoveWhitespaceKeeps(ToLower(s));
  }

  lemma {:induction false} RemoveWhitespaceNoop(s: string)
    requires forall c :: c in s ==> !IsWhitespace(c)
    ensures RemoveWhitespace(s) == s
  {
    if s != [] {
      assert s == s[..|s| - 1] + [s[|s| - 1]];
      RemoveWhitespaceNoop(s[..|s| - 1]);
    }
  }

  lemma {:induction false} RemoveWhitespaceConcat(a: string, b: string)
    ensures RemoveWhitespace(a + b) == RemoveWhitespace(a) + RemoveWhitespace(b)
    decreases |b|
  {
    if b == [] {
      assert a + b == a;
    } else {
      var b' := b[..|b| - 1];
      assert (a + b)[..|a + b| - 1] == a + b';
      RemoveWhitespaceConcat(a, b');
    }
  }

  /** A string without whitespace or upper-case letters is already
      normalised. */
  lemma NormalizeNormal(s: string)
    requires forall c :: c in s ==> !IsWhitespace(c) && !IsUpper(c)
    ensures Normalize(s) == s
  {
    assert ToLower(s) == s;
    RemoveWhitespaceNoop(s);
  }

  /** Normalising twice is normalising once. */
  lemma NormalizeIdempotent(s: string)
    ensures Normalize(Normalize(s)) == Normalize(s)
  {
    NormalizeNormal(Normalize(s));
  }

  /** Normalisation works character by character: it distributes over
      concatenation. */
  lemma NormalizeConcat(a: string, b: string)
    ensures Normalize(a + b) == Normalize(a) + Normalize(b)
  {
    assert ToLower(a + b) == ToLower(a) + ToLower(b);
    RemoveWhitespaceConcat(ToLower(a), ToLower(b));
  }

  // ---------------------------------------------------------------------
  // The substring-anchored edit distance (editDistanceSubstringMemo without
  // the memo): the cost of consuming g[i..] against t[j..].
  // ---------------------------------------------------------------------

  function Min(a: int, b: int): int {
    if a <= b then a else b
  }

  /** The recurrence of editDistanceSubstringMemo. The score of a guess
      against a title is Dist(g, t, 0, 0). Every value lies between the
      number of guess characters left over once the title is used up and
      the number of guess characters still to consume. */
  function Dist(g: string, t: string, i: nat, j: nat): (r: nat)
    requires i <= |g| && j <= |t|
    ensures (|g| - i) - (|t| - j) <= r <= |g| - i
    decreases |g| - i + |t| - j
  {
    if i == |g| then 0
    else if j == |t| then |g| - i
    else
      var d :=
        if g[i] == t[j] then Dist(g, t, i + 1, j + 1)
        else Min(Min(Dist(g, t, i, j + 1), Dist(g, t, i + 1, j)), Dist(g, t, i + 1, j + 1)) + 1;
      if i == 0 then Min(d, Dist(g, t, 0, j + 1)) else d
  }

  /** The guess occurs in the title starting at offset k. */
  predicate OccursAt(g: string, t: string, k: nat) {
    k + |g| <= |t| && t[k..k + |g|] == g
  }

  /** The guess is a contiguous substring of the title. */
  predicate IsSubstring(g: string, t: string) {
    exists k: nat :: k <= |t| && OccursAt(g, t, k)
  }

  /** Past the anchor, a zero cost means the rest of the guess is a prefix of
      the rest of the title. */
  lemma {:induction false} DistTailZero(g: string, t: string, i: nat, j: nat)
    requires 0 < i <= |g| && j <= |t|
    ensures Dist(g, t, i, j) == 0 <==> (|g| - i <= |t| - j && t[j..j + |g| - i] == g[i..])
    decreases |g| - i
  {
    if i == |g| {
    } else if j == |t| {
    } else if g[i] == t[j] {
      DistTailZero(g, t, i + 1, j + 1);
      if |g| - i <= |t| - j {
        assert t[j..j + |g| - i] == [t[j]] + t[j + 1..j + 1 + |g| - (i + 1)];
        assert g[i..] == [g[i]] + g[i + 1..];
      }
    } else {
      if |g| - i <= |t| - j {
        assert t[j..j + |g| - i][0] == t[j];
      }
    }
  }

  /** At the anchor, a zero cost means the guess occurs somewhere at or after
      offset j. */
  lemma {:induction false} DistAnchoredZero(g: string, t: string, j: nat)
    requires |g| > 0 && j <= |t|
    ensures Dist(g, t, 0, j) == 0 <==> exists k: nat :: j <= k && OccursAt(g, t, k)
    decreases |t| - j
  {
    if j == |t| {
      forall k: nat | j <= k ensures !OccursAt(g, t, k) { }
    } else {
      DistAnchoredZero(g, t, j + 1);
      var here := g[0] == t[j] && Dist(g, t, 1, j + 1) == 0;
      assert Dist(g, t, 0, j) == 0 <==> here || Dist(g, t, 0, j + 1) == 0;
      DistTailZero(g, t, 1, j + 1);
      if OccursAt(g, t, j) {
        assert t[j..j + |g|][0] == t[j];
        assert t[j + 1..j + 1 + |g| - 1] == t[j..j + |g|][1..];
        assert here;
      }
      if here {
        assert t[j..j + |g|] == [t[j]] + t[j + 1..j + 1 + |g| - 1];
        assert g == [g[0]] + g[1..];
        assert OccursAt(g, t, j);
      }
      if exists k: nat :: j <= k && OccursAt(g, t, k) {
        var k: nat :| j <= k && OccursAt(g, t, k);
        if k != j {
          assert j + 1 <= k;
        }
      }
    }
  }

  /** A guess scores 0 against a title exactly when it is a contiguous
      substring of it; the empty guess scores 0 against every title. */
  lemma DistZeroIffSubstring(g: string, t: string)
    ensures Dist(g, t, 0, 0) == 0 <==> IsSubstring(g, t)
  {
    if g == [] {
      assert OccursAt(g, t, 0);
    } else {
      DistAnchoredZero(g, t, 0);
    }
  }

  /** When no guess character occurs in the title, every guess character
      costs 1. */
  lemma {:induction false} DistDisjoint(g: string, t: string, i: nat, j: nat)
    requires i <= |g| && j <= |t|
    requires forall a, b :: 0 <= a < |g| && 0 <= b < |t| ==> g[a] != t[b]
    ensures Dist(g, t, i, j) == |g| - i
    decreases |g| - i + |t| - j
  {
    if i < |g| && j < |t| {
      DistDisjoint(g, t, i, j + 1);
      DistDisjoint(g, t, i + 1, j);
      DistDisjoint(g, t, i + 1, j + 1);
    }
  }

  /** Appending characters to a title never makes a guess score worse. */
  lemma {:induction false} DistTitleExtension(g: string, t: string, s: string, i: nat, j: nat)
    requires i <= |g| && j <= |t|
    ensures Dist(g, t + s, i, j) <= Dist(g, t, i, j)
    decreases |g| - i + |t| - j
  {
    if i < |g| && j < |t| {
      assert (t + s)[j] == t[j];
      DistTitleExtension(g, t, s, i, j + 1);
      DistTitleExtension(g, t, s, i + 1, j);
      DistTitleExtension(g, t, s, i + 1, j + 1);
    }
  }

  // ---------------------------------------------------------------------
  // The memo key `(startIdx << 16) | endIdx` on 32-bit integers. Keys are
  // kept as their unsigned 32-bit pattern, which is in one-to-one
  // correspondence with the signed value JavaScript produces.
  // ---------------------------------------------------------------------

  const TWO_POW_32: nat := 0x1_0000_0000

  function Pow2(k: nat): (r: nat)
    ensures r >= 1
  {
    if k == 0 then 1 else 2 * Pow2(k - 1)
  }

  /** Bitwise or of two non-negative integers. */
  function BitOr(a: nat, b: nat): nat
    decreases a + b
  {
    if a == 0 then b
    else if b == 0 then a
    else 2 * BitOr(a / 2, b / 2) + (if a % 2 == 1 || b % 2 == 1 then 1 else 0)
  }

  /** `(startIdx << 16) | endIdx` after ToInt32 of both operands. */
  function MemoKey(i: nat, j: nat): nat {
    BitOr((i % TWO_POW_32) * 0x10000 % TWO_POW_32, j % TWO_POW_32)
  }

  lemma {:induction false} BitOrDisjoint(a: nat, b: nat, k: nat)
    requires b < Pow2(k)
    ensures BitOr(a * Pow2(k), b) == a * Pow2(k) + b
  {
    if k == 0 {
    } else if a == 0 || b == 0 {
    } else {
      var hi := a * Pow2(k);
      assert hi == 2 * (a * Pow2(k - 1));
      assert hi / 2 == a * Pow2(k - 1) && hi % 2 == 0;
      BitOrDisjoint(a, b / 2, k - 1);
    }
  }

  lemma Pow2Sixteen()
    ensures Pow2(16) == 0x10000
  {
    assert Pow2(4) == 16;
    assert Pow2(8) == 256;
    assert Pow2(12) == 4096;
  }

  lemma MulMono(a: nat, b: nat, c: nat)
    requires a <= b
    ensures a * c <= b * c
  {}

  /** Indices below 2^16 are packed side by side in the key. */
  lemma MemoKeyValue(i: nat, j: nat)
    requires i < 0x10000 && j < 0x10000
    ensures MemoKey(i, j) == i * 0x10000 + j
  {
    Pow2Sixteen();
    assert i * 0x10000 <= 0xFFFF * 0x10000 < TWO_POW_32 by {
      MulMono(i, 0xFFFF, 0x10000);
    }
    assert (i % TWO_POW_32) * 0x10000 % TWO_POW_32 == i * 0x10000;
    BitOrDisjoint(i, j, 16);
  }

  /** With both indices below 2^16 the key identifies the pair. */
  lemma MemoKeyInjective(i: nat, j: nat, i': nat, j': nat)
    requires i < 0x10000 && j < 0x10000 && i' < 0x10000 && j' < 0x10000
    requires MemoKey(i, j) == MemoKey(i', j')
    ensures i == i' && j == j'
  {
    MemoKeyValue(i, j);
    MemoKeyValue(i', j');
  }

  /** Past 2^16 title characters two different states share a key. */
  lemma MemoKeyCollision()
    ensures MemoKey(0, 0x10000) == MemoKey(1, 0)
  {}

  /** Both strings are short enough for the memo key to be injective on the
      states the recursion visits. */
  predicate KeysFit(g: string, t: string) {
    |g| <= 0x10000 && |t| <= 0x10000
  }

  /** The `Map<number, number>` memo, updated in place. */
  class Memo {
    var entries: map<nat, nat>

    constructor ()
      ensures entries == map[]
    {
      entries := map[];
    }
  }

  /** Every entry stored for a state holds that state's distance. */
  ghost predicate MemoSound(memo: Memo, g: string, t: string)
    reads memo
  {
    KeysFit(g, t) ==>
      forall i: nat, j: nat :: i < |g| && j < |t| && MemoKey(i, j) in memo.entries ==>
        memo.entries[MemoKey(i, j)] == Dist(g, t, i, j)
  }

  /** `editDistanceSubstringMemo`: the memoised recursion returns the value
      of the recurrence whenever the memo key is injective. */
  method EditDistanceSubstringMemo(start: string, end: string, startIdx: nat, endIdx: nat, memo: Memo)
    returns (distance: nat)
    requires startIdx <= |start| && endIdx <= |end|
    requires MemoSound(memo, start, end)
    modifies memo
    ensures MemoSound(memo, start, end)
    ensures KeysFit(start, end) ==> distance == Dist(start, end, startIdx, endIdx)
    decreases |start| - startIdx + |end| - endIdx
  {
    if startIdx == |start| {
      return 0;
    } else if |end| == endIdx {
      return |start| - startIdx;
    }

    var memoKey := MemoKey(startIdx, endIdx);
    if memoKey in memo.entries {
      return memo.entries[memoKey];
    }

    if start[startIdx] == end[endIdx] {
      distance := EditDistanceSubstringMemo(start, end, startIdx + 1, endIdx + 1, memo);
    } else {
      var addDistance := EditDistanceSubstringMemo(start, end, startIdx, endIdx + 1, memo);
      var removeDistance := EditDistanceSubstringMemo(start, end, startIdx + 1, endIdx, memo);
      var replaceDistance := EditDistanceSubstringMemo(start, end, startIdx + 1, endIdx + 1, memo);
      distance := Min(Min(addDistance, removeDistance), replaceDistance) + 1;
    }

    if startIdx == 0 {
      var skipDistance := EditDistanceSubstringMemo(start, end, startIdx, endIdx + 1, memo);
      distance := Min(distance, skipDistance);
    }

    memo.entries := memo.entries[memoKey := distance];
    if KeysFit(start, end) {
      forall i: nat, j: nat | i < |start| && j < |end| && MemoKey(i, j) in memo.entries
        ensures memo.entries[MemoKey(i, j)] == Dist(start, end, i, j)
      {
        if MemoKey(i, j) == memoKey {
          MemoKeyInjective(i, j, startIdx, endIdx);
        }
      }
    }
  }

  /** `editDistance`: a fresh memo, started at the first characters. */
  method EditDistance(start: string, end: string) returns (distance: nat)
    ensures KeysFit(start, end) ==> distance == Dist(start, end, 0, 0)
    ensures KeysFit(start, end) ==> distance <= |start|
    ensures KeysFit(start, end) ==> (distance == 0 <==> IsSubstring(start, end))
  {
    var memo := new Memo();
    distance := EditDistanceSubstringMemo(start, end, 0, 0, memo);
    DistZeroIffSubstring(start, end);
  }

  // ---------------------------------------------------------------------
  // computeGuess: keep every track tied for the lowest distance.
  // ---------------------------------------------------------------------

  /** `Number.MAX_VALUE`, (2 - 2^-52) * 2^1023, the initial lowest distance. */
  const MAX_VALUE: int :=
    0xFFFFFFFFFFFFF800000000000000000000000000000000000000000000000000000000000000000000000000000000000000000000000000000000000000000000000000000000000000000000000000000000000000000000000000000000000000000000000000000000000000000000000000000000000000000000000000

  /** The smallest element of a non-empty sequence of distances. */
  function MinOf(ds: seq<nat>): (m: nat)
    requires ds != []
    ensures forall i :: 0 <= i < |ds| ==> m <= ds[i]
    ensures exists i :: 0 <= i < |ds| && ds[i] == m
  {
    if |ds| == 1 then ds[0] else Min(MinOf(ds[..|ds| - 1]), ds[|ds| - 1])
  }

  /** The elements of ts whose paired distance is m, in input order. */
  function Lowest<T>(ts: seq<T>, ds: seq<nat>, m: nat): seq<T>
    requires |ts| == |ds|
  {
    if ts == [] then []
    else
      var n := |ts| - 1;
      Lowest(ts[..n], ds[..n], m) + (if ds[n] == m then [ts[n]] else [])
  }

  /** An element is selected exactly when one of its positions carries
      distance m. */
  lemma {:induction false} LowestMembers<T>(ts: seq<T>, ds: seq<nat>, m: nat)
    requires |ts| == |ds|
    ensures forall x :: x in Lowest(ts, ds, m) <==> exists i :: 0 <= i < |ts| && ts[i] == x && ds[i] == m
  {
    if ts != [] {
      var n := |ts| - 1;
      var r0 := Lowest(ts[..n], ds[..n], m);
      LowestMembers(ts[..n], ds[..n], m);
      assert Lowest(ts, ds, m) == r0 + (if ds[n] == m then [ts[n]] else []);
      forall x ensures x in Lowest(ts, ds, m) <==> exists i :: 0 <= i < |ts| && ts[i] == x && ds[i] == m {
        if x in Lowest(ts, ds, m) && x !in r0 {
          assert ts[n] == x && ds[n] == m;
        }
        if x in r0 {
          var i :| 0 <= i < n && ts[..n][i] == x && ds[..n][i] == m;
          assert ts[i] == x && ds[i] == m;
        }
        if exists i :: 0 <= i < |ts| && ts[i] == x && ds[i] == m {
          var i :| 0 <= i < |ts| && ts[i] == x && ds[i] == m;
          if i < n {
            assert ts[..n][i] == x && ds[..n][i] == m;
          }
        }
      }
    }
  }

  /** The selection keeps input order. */
  lemma {:induction false} LowestInOrder<T>(ts: seq<T>, ds: seq<nat>, m: nat)
    requires |ts| == |ds|
    ensures IsSubsequence(Lowest(ts, ds, m), ts)
  {
    if ts != [] {
      var n := |ts| - 1;
      var r0 := Lowest(ts[..n], ds[..n], m);
      LowestInOrder(ts[..n], ds[..n], m);
      assert ts == ts[..n] + [ts[n]];
      if ds[n] == m {
        assert Lowest(ts, ds, m) == r0 + [ts[n]];
        SubsequenceSnoc(r0, ts[..n], ts[n]);
      } else {
        assert Lowest(ts, ds, m) == r0;
        SubsequenceExtend(r0, ts[..n], ts[n]);
      }
    }
  }

  /** The score of a guess (already normalised) against a track. */
  function Score(g: string, track: PlaylistTrack): nat {
    Dist(g, Normalize(track.name), 0, 0)
  }

  function Scores(g: string, tracks: seq<PlaylistTrack>): (ds: seq<nat>)
    ensures |ds| == |tracks|
  {
    seq(|tracks|, i requires 0 <= i < |tracks| => Score(g, tracks[i]))
  }

  /** What computeGuess returns: the tracks whose score is the lowest. */
  function BestTracks(g: string, tracks: seq<PlaylistTrack>): seq<PlaylistTrack> {
    if tracks == [] then [] else Lowest(tracks, Scores(g, tracks), MinOf(Scores(g, tracks)))
  }

  /** The selection is empty only for an empty track list, and keeps input
      order. */
  lemma BestTracksNonEmpty(g: string, tracks: seq<PlaylistTrack>)
    ensures BestTracks(g, tracks) == [] <==> tracks == []
    ensures IsSubsequence(BestTracks(g, tracks), tracks)
  {
    if tracks != [] {
      var ds := Scores(g, tracks);
      LowestMembers(tracks, ds, MinOf(ds));
      LowestInOrder(tracks, ds, MinOf(ds));
      var i :| 0 <= i < |ds| && ds[i] == MinOf(ds);
      assert tracks[i] in BestTracks(g, tracks);
    }
  }

  /** Every selected track has a score no track beats. */
  lemma BestTracksAreLowest(g: string, tracks: seq<PlaylistTrack>)
    ensures forall x, y :: x in BestTracks(g, tracks) && y in tracks ==> Score(g, x) <= Score(g, y)
  {
    if tracks != [] {
      var ds := Scores(g, tracks);
      var m := MinOf(ds);
      LowestMembers(tracks, ds, m);
      forall x, y | x in BestTracks(g, tracks) && y in tracks ensures Score(g, x) <= Score(g, y) {
        var a :| 0 <= a < |tracks| && tracks[a] == x && ds[a] == m;
        var b :| 0 <= b < |tracks| && tracks[b] == y;
        assert ds[b] == Score(g, y);
      }
    }
  }

  /** Every track that no track beats is selected: ties are all kept. */
  lemma BestTracksKeepTies(g: string, tracks: seq<PlaylistTrack>)
    ensures forall x :: x in tracks && (forall y :: y in tracks ==> Score(g, x) <= Score(g, y)) ==>
      x in BestTracks(g, tracks)
  {
    if tracks != [] {
      var ds := Scores(g, tracks);
      var m := MinOf(ds);
      LowestMembers(tracks, ds, m);
      var i :| 0 <= i < |ds| && ds[i] == m;
      forall x | x in tracks && (forall y :: y in tracks ==> Score(g, x) <= Score(g, y))
        ensures x in BestTracks(g, tracks)
      {
        var a :| 0 <= a < |tracks| && tracks[a] == x;
        assert Score(g, x) <= Score(g, tracks[i]);
        assert ds[a] == m;
      }
    }
  }

  /** Appending one element with distance d to a non-empty selection. */
  lemma LowestSnoc<T>(ts: seq<T>, ds: seq<nat>, x: T, d: nat)
    requires |ts| == |ds| && ds != []
    ensures MinOf(ds + [d]) == Min(MinOf(ds), d)
    ensures Lowest(ts + [x], ds + [d], MinOf(ds + [d])) ==
      if d < MinOf(ds) then [x]
      else if d == MinOf(ds) then Lowest(ts, ds, MinOf(ds)) + [x]
      else Lowest(ts, ds, MinOf(ds))
  {
    var n := |ts|;
    var ts', ds' := ts + [x], ds + [d];
    assert ts'[..n] == ts;
    assert ds'[..n] == ds;
    var m' := Min(MinOf(ds), d);
    assert MinOf(ds') == Min(MinOf(ds'[..n]), ds'[n]);
    assert Lowest(ts', ds', m') == Lowest(ts, ds, m') + (if d == m' then [x] else []);
    if d < MinOf(ds) {
      LowestNone(ts, ds, d);
    }
  }

  lemma {:induction false} LowestNone<T>(ts: seq<T>, ds: seq<nat>, m: nat)
    requires |ts| == |ds|
    requires forall i :: 0 <= i < |ds| ==> ds[i] > m
    ensures Lowest(ts, ds, m) == []
  {
    if ts != [] {
      var n := |ts| - 1;
      LowestNone(ts[..n], ds[..n], m);
    }
  }

  lemma ScoresSnoc(g: string, ts: seq<PlaylistTrack>, x: PlaylistTrack)
    ensures Scores(g, ts + [x]) == Scores(g, ts) + [Score(g, x)]
  {}

  /** How the selection changes when one more track is considered: this is
      the body of computeGuess's loop. */
  lemma BestTracksSnoc(g: string, ts: seq<PlaylistTrack>, x: PlaylistTrack)
    ensures ts != [] ==> MinOf(Scores(g, ts + [x])) == Min(MinOf(Scores(g, ts)), Score(g, x))
    ensures ts == [] ==> MinOf(Scores(g, ts + [x])) == Score(g, x)
    ensures BestTracks(g, ts + [x]) ==
      if ts == [] then [x]
      else if Score(g, x) < MinOf(Scores(g, ts)) then [x]
      else if Score(g, x) == MinOf(Scores(g, ts)) then BestTracks(g, ts) + [x]
      else BestTracks(g, ts)
  {
    ScoresSnoc(g, ts, x);
    if ts == [] {
      assert ts + [x] == [x];
      assert Scores(g, [x]) == [Score(g, x)];
      assert Lowest([x], [Score(g, x)], Score(g, x)) == Lowest([], [], Score(g, x)) + [x];
    } else {
      LowestSnoc(ts, Scores(g, ts), x, Score(g, x));
    }
  }

  /** BestTracksSnoc for the prefixes computeGuess's loop walks through. */
  lemma BestTracksPrefix(g: string, tracks: seq<PlaylistTrack>, k: nat)
    requires k < |tracks|
    ensures k > 0 ==> MinOf(Scores(g, tracks[..k + 1])) == Min(MinOf(Scores(g, tracks[..k])), Score(g, tracks[k]))
    ensures k == 0 ==> MinOf(Scores(g, tracks[..k + 1])) == Score(g, tracks[k])
    ensures BestTracks(g, tracks[..k + 1]) ==
      if k == 0 then [tracks[k]]
      else if Score(g, tracks[k]) < MinOf(Scores(g, tracks[..k])) then [tracks[k]]
      else if Score(g, tracks[k]) == MinOf(Scores(g, tracks[..k])) then BestTracks(g, tracks[..k]) + [tracks[k]]
      else BestTracks(g, tracks[..k])
  {
    assert tracks[..k + 1] == tracks[..k] + [tracks[k]];
    BestTracksSnoc(g, tracks[..k], tracks[k]);
  }

  /** Every normalised string involved fits the memo key. */
  predicate GuessFits(guess: string, tracks: seq<PlaylistTrack>) {
    forall t :: t in tracks ==> KeysFit(Normalize(guess), Normalize(t.name))
  }

  /** `computeGuess`: a single pass that keeps the tracks tied for the lowest
      distance seen so far. */
  method ComputeGuess(guess: string, tracks: seq<PlaylistTrack>) returns (lowestTracks: seq<PlaylistTrack>)
    ensures forall x :: x in lowestTracks ==> x in tracks
    ensures tracks == [] ==> lowestTracks == []
    ensures GuessFits(guess, tracks) ==> lowestTracks == BestTracks(Normalize(guess), tracks)
  {
    var normalizedGuess := Normalize(guess);
    ghost var fits := GuessFits(guess, tracks);
    lowestTracks := [];
    var lowestDistance := MAX_VALUE;

    for k := 0 to |tracks|
      invariant forall x :: x in lowestTracks ==> x in tracks
      invariant k == 0 ==> lowestTracks == [] && lowestDistance == MAX_VALUE
      invariant fits && k > 0 ==> lowestDistance == MinOf(Scores(normalizedGuess, tracks[..k]))
      invariant fits ==> lowestTracks == BestTracks(normalizedGuess, tracks[..k])
    {
      var track := tracks[k];
      var distance := EditDistance(normalizedGuess, Normalize(track.name));
      if fits {
        assert track in tracks;
        assert distance == Score(normalizedGuess, track) < MAX_VALUE;
        BestTracksPrefix(normalizedGuess, tracks, k);
      }
      if distance < lowestDistance {
        lowestTracks := [track];
        lowestDistance := distance;
      } else if distance == lowestDistance {
        lowestTracks := lowestTracks + [track];
      }
    }
    assert tracks[..|tracks|] == tracks;
  }

  // ---------------------------------------------------------------------
  // Worked examples. Each takes its strings as parameters fixed by its
  // requires clause, so that the verifier reasons about them symbolically.
  // ---------------------------------------------------------------------

  function TitledTrack(name: string): PlaylistTrack {
    PlaylistTrack("", name, 0)
  }

  lemma RemoveWhitespacePrefix(l: string, k: nat)
    requires k < |l|
    ensures RemoveWhitespace(l[..k + 1]) == RemoveWhitespace(l[..k]) + (if IsWhitespace(l[k]) then [] else [l[k]])
  {
    assert l[..k + 1][..k] == l[..k];
  }

  /** Stripping a five-character string whose second and fourth
      characters are whitespace keeps the other three. */
  lemma RemoveWhitespaceSpaced(l: string)
    requires |l| == 5
    requires !IsWhitespace(l[0]) && IsWhitespace(l[1]) && !IsWhitespace(l[2]) && IsWhitespace(l[3]) && !IsWhitespace(l[4])
    ensures RemoveWhitespace(l) == [l[0], l[2], l[4]]
  {
    RemoveWhitespacePrefix(l, 0);
    RemoveWhitespacePrefix(l, 1);
    RemoveWhitespacePrefix(l, 2);
    RemoveWhitespacePrefix(l, 3);
    RemoveWhitespacePrefix(l, 4);
    assert l[..5] == l;
  }

  /** Case and spacing are ignored: "A B C" normalises to "abc". */
  lemma ExampleNormalize(s: string)
    requires s == "A B C"
    ensures Normalize(s) == "abc"
  {
    assert ToLower(s) == "a b c";
    RemoveWhitespaceSpaced(ToLower(s));
  }

  /** A prefix and a mid-title fragment both score 0, and so does a guess
      that differs from the title only in case and spacing. */
  lemma ExampleSubstringScores(abc: string, cde: string, spaced: string, title: string)
    requires abc == "abc" && cde == "cde" && spaced == "A B C" && title == "abcdef"
    ensures Score(Normalize(abc), TitledTrack(title)) == 0
    ensures Score(Normalize(cde), TitledTrack(title)) == 0
    ensures Score(Normalize(spaced), TitledTrack(abc)) == 0
  {
    NormalizeNormal(abc);
    NormalizeNormal(cde);
    NormalizeNormal(title);
    ExampleNormalize(spaced);
    assert OccursAt(abc, title, 0);
    assert OccursAt(cde, title, 2);
    assert OccursAt(abc, abc, 0);
    DistZeroIffSubstring(abc, title);
    DistZeroIffSubstring(cde, title);
    DistZeroIffSubstring(abc, abc);
  }

  /** A guess sharing no character with the title pays for every character. */
  lemma ExampleMismatchScore(xyz: string, abc: string)
    requires xyz == "xyz" && abc == "abc"
    ensures Score(Normalize(xyz), TitledTrack(abc)) == 3
  {
    NormalizeNormal(xyz);
    NormalizeNormal(abc);
    DistDisjoint(xyz, abc, 0, 0);
  }

  /** When every score is the same, every track is returned, in input
      order. */
  lemma {:induction false} LowestAll<T>(ts: seq<T>, ds: seq<nat>, m: nat)
    requires |ts| == |ds|
    requires forall i :: 0 <= i < |ds| ==> ds[i] == m
    ensures Lowest(ts, ds, m) == ts
  {
    if ts != [] {
      var n := |ts| - 1;
      LowestAll(ts[..n], ds[..n], m);
    }
  }

  lemma BestTracksAllTied(g: string, tracks: seq<PlaylistTrack>, d: nat)
    requires forall i :: 0 <= i < |tracks| ==> Score(g, tracks[i]) == d
    ensures BestTracks(g, tracks) == tracks
  {
    if tracks != [] {
      var ds := Scores(g, tracks);
      assert ds[0] == d;
      LowestAll(tracks, ds, d);
    }
  }

  /** A normalised guess found inside an already normalised title scores 0
      against it. */
  lemma ScoreZeroAt(g: string, title: string, k: nat)
    requires forall c :: c in title ==> !IsWhitespace(c) && !IsUpper(c)
    requires k <= |title| && OccursAt(g, title, k)
    ensures Score(g, TitledTrack(title)) == 0
  {
    NormalizeNormal(title);
    DistZeroIffSubstring(g, title);
  }

  /** "a" occurs in "apple", "avocado" and "banana", so it scores 0
      against each of them. */
  lemma ExampleTiedScores(a: string, apple: string, avocado: string, banana: string)
    requires a == "a" && apple == "apple" && avocado == "avocado" && banana == "banana"
    ensures Score(a, TitledTrack(apple)) == 0
    ensures Score(a, TitledTrack(avocado)) == 0
    ensures Score(a, TitledTrack(banana)) == 0
  {
    ScoreZeroAt(a, apple, 0);
    ScoreZeroAt(a, avocado, 0);
    ScoreZeroAt(a, banana, 1);
  }

  /** Hence all three are tied and all are returned, in input order. */
  lemma ExampleTies(a: string, apple: string, avocado: string, banana: string)
    requires a == "a" && apple == "apple" && avocado == "avocado" && banana == "banana"
    ensures BestTracks(Normalize(a), [TitledTrack(apple), TitledTrack(avocado), TitledTrack(banana)]) ==
            [TitledTrack(apple), TitledTrack(avocado), TitledTrack(banana)]
  {
    var ts := [TitledTrack(apple), TitledTrack(avocado), TitledTrack(banana)];
    ExampleTiedScores(a, apple, avocado, banana);
    BestTracksAllTied(a, ts, 0);
    NormalizeNormal(a);
  }
}
