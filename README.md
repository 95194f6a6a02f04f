# Spotify quiz: guess matching, quiz rules and PKCE credentials in Dafny

This project models the client core of a music quiz built on Spotify.
The player picks one of their playlists. The quiz plays two-second clips
of up to ten tracks, and the player types the title they think they heard.
The model covers five parts:

- **Guess matcher** (`guess_matcher.dfy`, from `client/utils/computeGuess.ts`).
  - The guess and every title are normalised: lower-cased, with whitespace removed.
  - Each title is scored with an edit distance that lets the guess match anywhere inside the title.
  - The tracks tied for the lowest score are returned, in playlist order.
  - The memoised recursion is an imperative method with its `Map` memo as a class.
  - It is proved equal to a pure recurrence, `Dist`, wherever the memo's packed key `(i << 16) | j` cannot collide.
- **Quiz rules** (`quiz.dfy`, from `client/Authed.tsx`).
  - The in-place Fisher–Yates shuffle runs over an `array`.
  - Questions are the first ten shuffled track indices, each with a random start offset.
  - Display rules decide when a guessed track or the "not specific enough" message shows.
  - The Previous and Next guards control navigation between questions.
  - Each `Math.random()` call is one draw in [0, 1), passed in as a parameter.
- **PKCE verifier, challenge and token requests** (`spotify_auth.dfy`, from `client/services/spotify.ts`).
  - The verifier is hex-encoded random bytes.
  - The challenge is the Base64 of a SHA-256 digest, rewritten to the URL-safe alphabet without padding.
  - The model covers the authorize, code-exchange and refresh request parameters.
  - It also builds the token bundle from a token response, or reports an error.
- **Token bundle validation** (`token_bundle.dfy`, from `client/types/spotify.ts`).
  - This is the runtime type guard `validateTokenBundle`.
  - It works over a model of JavaScript values (`js_values.dfy`): `typeof`, `in`, property reads, `??`, and what a JSON round trip does to a value.
- **Credential store** (`credential_store.dfy`, from `client/utils/localStorage.ts`).
  - `localStorage` is a class with a `map<string, string>` field.
  - The verifier and the serialised token bundle are stored, loaded and cleared under their two keys.
  - `JSON.stringify` and `JSON.parse` are a codec parameter. Malformed JSON is an error outcome.

`wrappers.dfy` holds `Option` and `Result`. `sequences.dfy` holds an ordered-subsequence predicate used by several modules.

A guess scores 0 against every title that contains it. So the guess "a" scores 0 against "apple", "avocado" and "banana", and all three are returned (`GuessMatcher.ExampleTies`).

The comment at `client/services/spotify.ts:9` speaks of a 128-bit verifier. The code at line 12 draws 32 random bytes, which is 256 bits; the model follows the code.

## Model

| member | source | states |
|---|---|---|
| GuessMatcher.ToLowerChar | client/utils/computeGuess.ts:4 | lower-casing leaves no upper-case letter, maps each upper-case letter 32 code points down, keeps every other character, and keeps whitespace whitespace |
| GuessMatcher.RemoveWhitespace | client/utils/computeGuess.ts:4 | the result holds no whitespace and is an ordered subsequence of the input |
| GuessMatcher.RemoveWhitespaceKeeps | client/utils/computeGuess.ts:4 | every non-whitespace character occurs in the result exactly as often as in the input |
| GuessMatcher.Normalize | client/utils/computeGuess.ts:3-5 | a normalised string holds no whitespace and no upper-case letter, and is an ordered subsequence of the lower-cased input |
| GuessMatcher.NormalizeShorter | client/utils/computeGuess.ts:3-5 | normalising never lengthens a string |
| GuessMatcher.NormalizeKeeps | client/utils/computeGuess.ts:3-5 | normalising keeps the count of every non-whitespace character of the lower-cased input |
| GuessMatcher.RemoveWhitespaceNoop | client/utils/computeGuess.ts:4 | a string without whitespace is unchanged |
| GuessMatcher.RemoveWhitespaceConcat | client/utils/computeGuess.ts:4 | removing whitespace distributes over concatenation |
| GuessMatcher.NormalizeNormal | client/utils/computeGuess.ts:3-5 | a string already free of whitespace and upper case is its own normal form |
| GuessMatcher.NormalizeIdempotent | client/utils/computeGuess.ts:3-5 | normalising twice is normalising once |
| GuessMatcher.NormalizeConcat | client/utils/computeGuess.ts:3-5 | normalisation distributes over concatenation |
| GuessMatcher.Dist | client/utils/computeGuess.ts:14-46 | the recurrence's value lies between the guess characters left once the title runs out and the guess characters still to consume |
| GuessMatcher.DistTailZero | client/utils/computeGuess.ts:31-38 | past the first guess character, the distance is 0 exactly when the rest of the guess appears verbatim at the current title position |
| GuessMatcher.DistAnchoredZero | client/utils/computeGuess.ts:43-46 | at the first guess character the distance is 0 exactly when the guess occurs at or after the current title position |
| GuessMatcher.DistZeroIffSubstring | client/utils/computeGuess.ts:14-55 | the score is 0 if and only if the guess is a substring of the title |
| GuessMatcher.DistDisjoint | client/utils/computeGuess.ts:33-38 | when no guess character occurs in the title, the score is the whole remaining guess length |
| GuessMatcher.DistTitleExtension | client/utils/computeGuess.ts:14-46 | extending the title never raises the score |
| GuessMatcher.BitOrDisjoint | client/utils/computeGuess.ts:24 | or-ing a value shifted left by k with a value below 2^k is their sum |
| GuessMatcher.MemoKeyValue | client/utils/computeGuess.ts:24 | for indices below 2^16 the memo key is i * 2^16 + j |
| GuessMatcher.MemoKeyInjective | client/utils/computeGuess.ts:24 | for indices below 2^16 equal memo keys mean equal index pairs |
| GuessMatcher.MemoKeyCollision | client/utils/computeGuess.ts:24 | state (0, 65536) and state (1, 0) share a memo key |
| GuessMatcher.EditDistanceSubstringMemo | client/utils/computeGuess.ts:7-50 | the memoised recursion keeps every stored entry correct and returns the recurrence's value whenever the key cannot collide |
| GuessMatcher.Memo.constructor | client/utils/computeGuess.ts:53 | `editDistance` starts from an empty memo |
| GuessMatcher.EditDistance | client/utils/computeGuess.ts:52-55 | with a fresh memo the distance is the recurrence at (0, 0), at most the guess length, and 0 exactly when the guess is a substring of the title |
| GuessMatcher.MinOf | client/utils/computeGuess.ts:60-69 | the lowest distance is at most every distance and is one of them |
| GuessMatcher.LowestMembers | client/utils/computeGuess.ts:64-69 | an element is kept exactly when one of its positions carries the lowest distance |
| GuessMatcher.LowestInOrder | client/utils/computeGuess.ts:64-69 | kept elements appear in input order |
| GuessMatcher.BestTracks | client/utils/computeGuess.ts:57-72 | the reference selection: the tracks whose score equals the lowest score, in order; its properties are the `BestTracks…` lemmas below |
| GuessMatcher.BestTracksNonEmpty | client/utils/computeGuess.ts:57-73 | the result is empty exactly when the track list is, and is an ordered subsequence of it |
| GuessMatcher.BestTracksAreLowest | client/utils/computeGuess.ts:57-73 | every returned track scores at most every track of the list |
| GuessMatcher.BestTracksKeepTies | client/utils/computeGuess.ts:64-69 | every track whose score is minimal is returned, so ties are never broken |
| GuessMatcher.LowestSnoc | client/utils/computeGuess.ts:64-69 | appending one distance updates the lowest value and selection as the loop's two branches do |
| GuessMatcher.BestTracksSnoc | client/utils/computeGuess.ts:62-70 | one more track either replaces the selection (strictly lower), extends it (equal), or leaves it (higher) |
| GuessMatcher.BestTracksPrefix | client/utils/computeGuess.ts:62-70 | the same step on the list's prefixes, as the loop visits them |
| GuessMatcher.ComputeGuess | client/utils/computeGuess.ts:57-73 | the loop returns only tracks of the list, nothing for an empty list, and, when the memo key fits, exactly the tied lowest-scoring tracks in order |
| GuessMatcher.ExampleNormalize | client/utils/computeGuess.ts:3-5 | "A B C" normalises to "abc" |
| GuessMatcher.ExampleSubstringScores | client/utils/computeGuess.ts:43-46 | "abc" and "cde" score 0 against "abcdef", and "A B C" scores 0 against "abc" |
| GuessMatcher.ExampleMismatchScore | client/utils/computeGuess.ts:33-38 | "xyz" scores 3 against "abc" |
| GuessMatcher.BestTracksAllTied | client/utils/computeGuess.ts:64-69 | when every track has the same score, every track is returned |
| GuessMatcher.ScoreZeroAt | client/utils/computeGuess.ts:43-46 | a guess occurring anywhere in a normalised title scores 0 |
| GuessMatcher.ExampleTies | client/utils/computeGuess.ts:57-73 | "a" against "apple", "avocado", "banana" returns all three tracks |
| Quiz.RandomBelow | client/Authed.tsx:25 | `Math.floor(u * m)` for a draw lies in [0, m), and is 0 when m is 0 |
| Quiz.RandomBelowReaches | client/Authed.tsx:25 | every integer below m is the outcome of some draw |
| Quiz.Partner | client/Authed.tsx:25 | the swap partner of position i lies in [i, n) |
| Quiz.PartnerReachesAll | client/Authed.tsx:25 | every position from i to n - 1 is a possible partner |
| Quiz.ShuffledFrom | client/Authed.tsx:23-31 | the reference shuffle from position i on: swap i with its partner and go on, stopping before the last position; its properties are `ShufflePermutes`, `ShuffleKeepsPrefix` and `ShuffleKeepsDistinct` |
| Quiz.SwapPermutes | client/Authed.tsx:26-28 | a swap keeps the multiset of elements |
| Quiz.ShufflePermutes | client/Authed.tsx:23-31 | the shuffle keeps the length and the multiset of elements |
| Quiz.ShuffleKeepsPrefix | client/Authed.tsx:24-29 | positions already visited are not touched again |
| Quiz.ShuffleKeepsDistinct | client/Authed.tsx:23-31 | a shuffle of distinct elements has distinct elements |
| Quiz.Shuffle | client/Authed.tsx:23-31 | the in-place loop leaves the array holding the shuffle of its old contents and returns the same array |
| Quiz.StartPosition | client/Authed.tsx:93 | a start offset is non-negative, 0 for a track of at most two seconds, and leaves room for the whole clip otherwise |
| Quiz.OrderIsPermutation | client/Authed.tsx:89 | the shuffled indices are a permutation of 0 .. n - 1 |
| Quiz.MakeQuestions | client/Authed.tsx:90-94 | one question per chosen index, each with its own start offset |
| Quiz.Questions | client/Authed.tsx:89-94 | the reference question list: the first min(n, 10) shuffled indices with their offsets; its properties are `QuestionsWellFormed` |
| Quiz.QuestionsWellFormed | client/Authed.tsx:89-94 | there are min(n, 10) questions, each with a valid track index and a clip inside its track, no track asked twice, every track asked when n is at most 10 |
| Quiz.GenerateQuestions | client/Authed.tsx:89-94 | shuffling an index array in place and keeping the first ten yields the specified questions |
| Quiz.GuessedTracks | client/Authed.tsx:129-134 | nothing before a guess is submitted; afterwards the tracks computeGuess returns |
| Quiz.GuessedTrack | client/Authed.tsx:135 | the guessed track is the only element of a one-element result; see `DisplayRules` |
| Quiz.NotSpecificEnough | client/Authed.tsx:165 | the message shows for a result of more than two tracks; see `DisplayRules` |
| Quiz.DisplayRules | client/Authed.tsx:135-167 | a guessed track shows exactly for one result, the message exactly for more than two, never both, neither for exactly two |
| Quiz.GuessedTrackIsStrictBest | client/Authed.tsx:135 | a shown guessed track scores strictly lower than every other track of the playlist |
| Quiz.NothingShownOnlyForTwo | client/Authed.tsx:135-167 | after a guess on a non-empty playlist, nothing shows only when exactly two tracks tie |
| Quiz.SelectPlaylistStarts | client/Authed.tsx:88-99 | selecting a playlist gives valid questions and a current question exactly when the playlist is not empty |
| Quiz.SelectPlaylist | client/Authed.tsx:88-98 | a new playlist brings its tracks and questions and the first question; the guess stays empty and not guessed, its initial values, because the chooser is shown only while no playlist is selected (`client/Authed.tsx:143`); see `SelectPlaylistStarts` |
| Quiz.GoToQuestion | client/Authed.tsx:102-111 | moving to a question clears the guess and the guessed flag |
| Quiz.Previous | client/Authed.tsx:184 | Previous is refused at index 0 and otherwise moves back one; see `PreviousStaysOnQuestion` |
| Quiz.NextAsWritten | client/Authed.tsx:193 | Next as written is refused once the index reaches the number of tracks less one; see `NextAsWrittenOnSmallPlaylists` and `NextAsWrittenOverruns` |
| Quiz.PreviousStaysOnQuestion | client/Authed.tsx:102-127 | Previous is refused only at the first question, otherwise moves back one, stays on a question and clears the guess |
| Quiz.NextStaysOnQuestion | client/Authed.tsx:102-123 | with the guard on the number of questions, Next is refused only at the last question and otherwise stays on a question |
| Quiz.NextAsWrittenOnSmallPlaylists | client/Authed.tsx:193 | on a playlist of at most ten tracks the guard as written equals the guard on questions |
| Quiz.NextAsWrittenOverruns | client/Authed.tsx:193 | on a playlist of more than ten tracks, Next as written is enabled at the tenth question and moves past the last question |
| JsValues.TypeOf | client/types/spotify.ts:9 | `typeof` is "object" exactly for null, dates, arrays and objects |
| JsValues.ReadProperty | client/services/spotify.ts:72 | a property read throws exactly on null or undefined and otherwise yields the property |
| JsValues.Coalesce | client/services/spotify.ts:100 | `??` takes the right operand exactly when the left is null or undefined |
| JsValues.JsonImageIsJson | client/utils/localStorage.ts:19 | what survives a JSON round trip is a JSON value |
| JsValues.JsonImageOfJson | client/utils/localStorage.ts:27 | a JSON value survives a round trip unchanged |
| JsValues.JsonImageIdempotent | client/utils/localStorage.ts:19-27 | a second round trip changes nothing more |
| TokenBundles.ValidateTokenBundle | client/types/spotify.ts:7-18 | the guard, check by check in source order; characterised by the lemmas below |
| TokenBundles.ValidateCharacterised | client/types/spotify.ts:7-18 | the guard accepts exactly objects with a string accessToken, a number expirySeconds and a string refreshToken |
| TokenBundles.ValidateIgnoresOtherMembers | client/types/spotify.ts:7-18 | adding, changing or removing any other member does not change the verdict |
| TokenBundles.ValidateNeedsEachMember | client/types/spotify.ts:11-15 | a missing member is rejected |
| TokenBundles.ValidateNeedsEachType | client/types/spotify.ts:12-16 | a member of the wrong type is rejected |
| TokenBundles.ToJsValid | client/types/spotify.ts:1-5 | every TokenBundle as an object passes the guard and reads back as itself |
| SpotifyAuth.ByteToHex | client/services/spotify.ts:12 | `b.toString(16)` is one hex digit below 16 and two otherwise |
| SpotifyAuth.VerifierAsWritten | client/services/spotify.ts:12 | the joined hex has between n and 2n hex digits for n bytes |
| SpotifyAuth.VerifierAsWrittenLength | client/services/spotify.ts:12 | its length is n plus the number of bytes of at least 16 |
| SpotifyAuth.VerifierAsWrittenTooShort | client/services/spotify.ts:12 | 32 bytes with at most ten of them at least 16 give fewer than 43 characters, not a valid code verifier |
| SpotifyAuth.VerifierAsWrittenZeroBytes | client/services/spotify.ts:12 | 32 zero bytes give a 32-character verifier |
| SpotifyAuth.VerifierAsWrittenAmbiguous | client/services/spotify.ts:12 | different byte strings can give the same verifier |
| SpotifyAuth.ByteToHexPadded | client/services/spotify.ts:12 | the padded form is always two hex digits |
| SpotifyAuth.Verifier | client/services/spotify.ts:12 | the padded verifier has exactly 2n hex digits |
| SpotifyAuth.VerifierIsCodeVerifier | client/services/spotify.ts:12 | from 32 bytes the padded verifier is a valid code verifier |
| SpotifyAuth.HexValue | client/services/spotify.ts:12 | decoding a hex digit gives the value that encodes to it |
| SpotifyAuth.VerifierRoundTrip | client/services/spotify.ts:12 | the padded verifier decodes back to its bytes |
| SpotifyAuth.Base64Char | client/services/spotify.ts:16 | no alphabet character is the padding character |
| SpotifyAuth.Sextets | client/services/spotify.ts:16 | n bytes give ceil(4n / 3) six-bit values, each below 64 |
| SpotifyAuth.Spell | client/services/spotify.ts:16 | one character per six-bit value |
| SpotifyAuth.ReplaceAll | client/services/spotify.ts:17-19 | a replaced character is gone when the replacement does not contain it |
| SpotifyAuth.ReplaceAllConcat | client/services/spotify.ts:17-19 | replacing distributes over concatenation |
| SpotifyAuth.ReplaceAllKeepsAbsent | client/services/spotify.ts:17-19 | replacing never introduces a character absent from input and replacement |
| SpotifyAuth.Fixup | client/services/spotify.ts:17-19 | the rewritten text contains no '=', '+' or '/' |
| SpotifyAuth.FixupConcat | client/services/spotify.ts:17-19 | the rewrite distributes over concatenation |
| SpotifyAuth.FixupChar | client/services/spotify.ts:17-19 | each non-padding character is rewritten on its own |
| SpotifyAuth.FixupKeepsOthers | client/services/spotify.ts:17-19 | without padding the rewrite keeps length and maps position by position |
| SpotifyAuth.FixupPadding | client/services/spotify.ts:17 | padding is removed |
| SpotifyAuth.FixupBase64 | client/services/spotify.ts:16-19 | rewriting standard Base64 gives the unpadded URL-safe Base64 of section 5 of RFC 4648 |
| SpotifyAuth.DigestLengths | client/services/spotify.ts:15-19 | a 32-byte digest gives 44 Base64 characters and a 43-character challenge |
| SpotifyAuth.AsciiBytes | client/services/spotify.ts:15 | encoding an ASCII string gives one byte per character |
| SpotifyAuth.VerifierAndChallengeAsWritten | client/services/spotify.ts:10-25 | as written: the verifier is ASCII hex of 32 + (bytes of at least 16) characters, between 32 and 64, and the challenge is the unpadded URL-safe Base64 of the SHA-256 of exactly that text, using only unreserved characters |
| SpotifyAuth.VerifierAndChallenge | client/services/spotify.ts:10-25 | corrected, with the zero-padded verifier: the verifier is a valid code verifier and the challenge is the unpadded URL-safe Base64 of its SHA-256, using only unreserved characters |
| SpotifyAuth.ChallengeUnreserved | client/services/spotify.ts:16-19 | URL-safe Base64 uses only unreserved characters |
| SpotifyAuth.ParamAt | client/services/spotify.ts:31-38 | a parameter is read from its first occurrence |
| SpotifyAuth.AuthorizeParams | client/services/spotify.ts:31-38 | the six query parameters in insertion order; see `AuthorizeParamsCarry` |
| SpotifyAuth.AuthorizeParamsCarry | client/services/spotify.ts:31-38 | the authorize URL asks for a code with the S256 challenge, the client id, the scope and the redirect URI |
| SpotifyAuth.CodeExchangeParams | client/services/spotify.ts:59-65 | the five form parameters of the code exchange; see `TokenParamsCarry` |
| SpotifyAuth.RefreshParams | client/services/spotify.ts:86-90 | the three form parameters of a refresh; see `TokenParamsCarry` |
| SpotifyAuth.TokenParamsCarry | client/services/spotify.ts:59-65 | the code exchange sends grant type, code and verifier; the refresh sends grant type and refresh token |
| SpotifyAuth.BundleObject | client/services/spotify.ts:71-76 | the bundle literal: access token, issue time, expiry, refresh token |
| SpotifyAuth.BundleFrom | client/services/spotify.ts:70-76 | reading the body throws a TypeError on null or undefined, otherwise builds the bundle literal |
| SpotifyAuth.TokenOutcome | client/services/spotify.ts:67-76 | a not-OK status rejects, then a body that is not JSON rejects, then the body is read |
| SpotifyAuth.FetchAccessToken | client/services/spotify.ts:53-77 | the code exchange outcome, error message naming "/token", refresh token copied as is; see the lemmas below |
| SpotifyAuth.RefreshAccessToken | client/services/spotify.ts:80-102 | the refresh outcome, error message naming "/api/token", refresh token `?? refreshToken`; see the lemmas below |
| SpotifyAuth.NotOkRejects | client/services/spotify.ts:67-69 | a non-OK response fails with its status and the path named in the error message, "/token" or "/api/token"; both requests go to `BASE_URL` + "/token", whose path is /api/token, so the two messages disagree with each other |
| SpotifyAuth.BundleCopiesResponse | client/services/spotify.ts:70-76 | a bundle copies access token and expiry from the response and stamps the issue time |
| SpotifyAuth.RefreshKeepsRefreshToken | client/services/spotify.ts:100 | a refresh keeps the old refresh token exactly when the response has none |
| SpotifyAuth.RefreshedBundleValid | client/services/spotify.ts:95-101 | a well-typed refresh response gives a bundle that passes the guard |
| SpotifyAuth.CodeBundleWithoutRefreshTokenInvalid | client/services/spotify.ts:75 | a code exchange answered without a refresh token gives a bundle the guard rejects |
| SpotifyAuth.NullBodyRejects | client/services/spotify.ts:70-72 | a null body makes both requests fail with a TypeError |
| CredentialStore.LocalStorage.GetItem | client/utils/localStorage.ts:11 | `getItem` yields the stored value, or null when the key is absent |
| CredentialStore.LocalStorage.SetItem | client/utils/localStorage.ts:7 | `setItem` stores the value under its key and changes nothing else |
| CredentialStore.LocalStorage.RemoveItem | client/utils/localStorage.ts:15 | `removeItem` drops the key and changes nothing else |
| CredentialStore.StoreVerifier | client/utils/localStorage.ts:6-8 | the verifier is stored under "spotify-verifier" |
| CredentialStore.LoadVerifier | client/utils/localStorage.ts:10-12 | the verifier is read from "spotify-verifier" |
| CredentialStore.ClearVerifier | client/utils/localStorage.ts:14-16 | the verifier key is removed |
| CredentialStore.StoreTokenBundle | client/utils/localStorage.ts:18-20 | the serialised bundle is stored under "spotify-token-bundle" |
| CredentialStore.LoadedTokenBundle | client/utils/localStorage.ts:22-32 | the reference load: null when nothing is stored, the parse error on malformed text, null when the guard fails, the parsed value otherwise |
| CredentialStore.LoadTokenBundle | client/utils/localStorage.ts:22-32 | null when nothing is stored, the parse error on malformed text, null when the guard fails, the parsed value otherwise |
| CredentialStore.VerifierRoundTrip | client/utils/localStorage.ts:6-16 | a stored verifier loads back as stored and is gone after clearing |
| CredentialStore.KeysIndependent | client/utils/localStorage.ts:3-4 | the verifier and the bundle live under different keys and never disturb each other |
| CredentialStore.LoadAbsent | client/utils/localStorage.ts:24-26 | with nothing stored the bundle loads as null, not as an error |
| CredentialStore.LoadMalformed | client/utils/localStorage.ts:27 | stored text that is not JSON makes the load fail |
| CredentialStore.LoadInvalid | client/utils/localStorage.ts:28-30 | parsed JSON that fails the guard loads as null |
| CredentialStore.LoadedIsValid | client/utils/localStorage.ts:28-31 | a loaded bundle always passes the guard |
| CredentialStore.JsonImageMember | client/utils/localStorage.ts:19 | a member that is not undefined survives the round trip as the image of its value |
| CredentialStore.TokenBundleRoundTrip | client/utils/localStorage.ts:18-32 | when the codec round-trips the bundle, a valid bundle with finite expiry loads back with the same access token, expiry and refresh token |
| CredentialStore.NonFiniteExpiryLoadsNull | client/utils/localStorage.ts:18-32 | a bundle whose expiry is NaN or infinite is stored with a null expiry and loads as null |
| CredentialStore.MissingRefreshTokenLoadsNull | client/utils/localStorage.ts:18-32 | a bundle without a refresh token loads as null |

## Left out

- ComputeGuess: the exact result is promised only when every normalised title and the guess have at most 65536 characters. Beyond that the packed memo key `(i << 16) | j` collides (`GuessMatcher.MemoKeyCollision`). A wrong memo entry can then be returned, and only "the result is drawn from the tracks" is proved.
- EditDistance: the same bound; past it the value is not stated.
- EditDistanceSubstringMemo: the same bound; past it the value is not stated.
- GuessedTracks: exact contents only under the same bound, for the same reason.
- VerifierAndChallenge: composes the corrected, zero-padded `Verifier`, not the unpadded hex of `client/services/spotify.ts:12`. The composition as written is `SpotifyAuth.VerifierAndChallengeAsWritten`.
- ToLowerChar: `toLowerCase` is modelled for Basic Latin and Latin-1 Supplement letters only. The full Unicode case mapping, including mappings that change length, is not modelled.
- Strings are sequences of code points, not of UTF-16 code units.
- `Math.random()` draws are exact reals in [0, 1), passed in as parameters. Floating-point rounding of `Math.random() * n` is not modelled.
- The shuffle's draws and the start-offset draws are two parameter sequences. The source makes the n - 1 swap draws first (`client/Authed.tsx:89`), then one draw per question (lines 90-94). The two sequences are that single stream split after the swap draws.
- `Number.MAX_VALUE` is an exact integer. Distances never come near it.
- The random bytes, SHA-256, `TextEncoder` and `btoa` are parameters or reference definitions. `Base64` is the RFC 4648 reference for what `btoa` returns on the digest bytes.
- URL and form encoding of the parameters by `URLSearchParams` is not modelled. The parameters are kept as ordered name–value pairs.
- `fetch`, the network, the redirect to the authorize URL and `res.json()` are parameters. A response is an OK flag, a status and a parsed body or a parse error.
- The clock `new Date()` is the `nowMs` parameter.
- JSON text is left abstract. The codec is a parameter. The round-trip lemmas take as a hypothesis that the codec gives back the JSON image of the stored value (`JsValues.RoundTrips`). Real `JSON.stringify` meets it only when every finite number is a double, which `real` does not single out; `JsValues.RoundTripsAchievable` shows the hypothesis can be met for any value.
- The Spotify Web Playback SDK, playback itself (`playTrack`), the paginated playlist and track fetches, React state and rendering, and the servers are not part of this model.
- Selecting an empty playlist plays `questions[0]` at `client/Authed.tsx:99`, which throws. The model shows that no current question exists then (`Quiz.SelectPlaylistStarts`). It does not model the exception.

## Findings

| source | as written | input that shows it | evidently intended | confidence | as-written member | corrected member |
|---|---|---|---|---|---|---|
| client/Authed.tsx:193 | Next is disabled once `questionIdx >= selectedPlaylistTracks.length - 1`, counting tracks rather than questions | a playlist of 11 or more tracks, at the tenth question: Next is enabled and moves to `questions[10]`, which does not exist | disable Next at the last question, `questionIdx >= questions.length - 1` | not executed | Quiz.NextAsWrittenOverruns | Quiz.NextStaysOnQuestion |
| client/services/spotify.ts:12 | each random byte is written with `toString(16)` without zero padding | 32 bytes of which at most ten are 16 or more, such as 32 zero bytes: the verifier has fewer than 43 characters, below the minimum of section 4.1 of RFC 7636; the bytes [1, 35] and [18, 3] both give "123" | pad each byte to two hex digits, giving a 64-character verifier | not executed | SpotifyAuth.VerifierAsWrittenTooShort | SpotifyAuth.VerifierAndChallenge |
