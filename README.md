# Multi-word speech counter — a Dafny model of its tallying core

The program is a single-page web application. The user types a comma-separated
list of target words. The browser's speech recogniser reports what it hears
as a stream of result fragments, some interim (still changing) and some final.
The page keeps a count per target word, shows a live preview while a fragment
is interim, and writes a transcript snapshot. All of its logic lives in one
class, `WordCounter` (`script.js`).

The model covers that class's word-tallying core. It is split into modules:

- `Wrappers` — `Option`, which stands for a JavaScript lookup that may answer `undefined`.
- `JsText` — the JavaScript string operations the core relies on:
  - `toLowerCase` on ASCII letters;
  - the white-space set shared by `trim` and the regular-expression class `\s`;
  - `trim`, `split(',')` and `split(/\s+/)`.
  `split(/\s+/)` is also given an independent definition: squeeze every run of
  white space to one space, then split on a single space.
- `RegExpEscape` — `escapeRegExp`, with a reading of its output as a pattern made only of literal atoms.
- `TargetWords` — `updateTargetWords`' parse of the comma-separated input.
- `Tally` — the values of the counts map and the counter elements, and `processTranscript`:
  - `Tally = Num(n) | NaN`, where NaN is what `undefined + count` stores;
  - `Shown`, what a counter element displays;
  - `Process`, the `forEach` over the target words.
- `Recognition` — `handleSpeechResult` on values:
  - the results visited from `resultIndex` on;
  - the transcript snapshot;
  - the last positive confidence.
- `Listening` — the `isListening` intent and the restart decision of `onend`, as a step function over traces of signals.
- `Counter` — the class `WordCounter`:
  - its fields are `isListening`, `wordCounts`, `targetWords`, `transcript`, the counter elements, the confidence element and the status line;
  - its methods are the handlers;
  - the loops of `initializeCounters`, `updateAllCounters`, `processTranscript` and `handleSpeechResult` are `while` loops, proved against the functions above.

The model follows the code as written, including these behaviours:

- `resetAllCounters` empties the map and does not put the zeros back.
  - The next final match of a word then stores `undefined + count`, which is NaN, and the word stays NaN (`Tally.FinalAfterResetIsNaN`).
  - The preview reads the map with `|| 0`, so a missing or NaN entry previews as 0 plus the fragment's matches.
- A target word listed twice shares one map entry. A final fragment adds its matches once per copy (`Tally.FinalAddsMatches`).
- Only whole white-space-separated pieces match.
  - "cat," and "cats" do not match "cat", while "Cat" and "CAT" do: the fragment "Cat cats CAT cat," holds "cat" twice (`Tally.WholeWordsOfFragment`).
  - A target word with a space inside never matches (`Tally.PhraseNeverMatches`).
- `handleSpeechResult` reads `results[results.length - 1]`, so it needs at least one result.
- When `resultIndex` equals the number of results, the loop visits nothing, yet the last result still decides the transcript. It becomes "" when that unvisited result is final, and a space followed by its text when it is interim (`Recognition.Snapshot`).
- The recogniser runs with `continuous = true`, so an event's `results` also holds the results of earlier events, before `resultIndex`. The transcript is rebuilt from the results from `resultIndex` on, so the final texts of earlier events drop out of it on every event.
- `onerror` writes the error into the status line. `stopListening` then immediately replaces it with "Stopped listening".
- `updateAllCounters` calls `updateCounterDisplay(word, false)` without a count. The DOM turns that `undefined` into empty element text (`Shown.Blank`).

The recogniser itself is not modelled. Each of the following is a parameter instead:

- whether the browser offers a recogniser (`speechSupported`);
- whether its `start` throws (`StartListening(startThrows)`);
- each event it delivers (`SpeechEvent`).

The initial text of the status line comes from the page's HTML and is the constructor's `initialStatus`. The initial content of the word input is the constructor's `input`.

## Model

| member | source | states |
|---|---|---|
| `JsText.LowerChar` | script.js:173 | lower-casing one character leaves no ASCII capital. A capital becomes the letter 32 code points above it, its small form. Every non-capital is kept, and a non-space never becomes a space or back |
| `JsText.Lower` | script.js:173 | `toLowerCase` has the input's length and lower-cases character by character |
| `JsText.LowerIdempotent` | script.js:79 | a lower-cased string holds no capital letter, and lower-casing it again changes nothing |
| `JsText.Trim` | script.js:79 | the input is some white space, then the result, then some white space. The result neither starts nor ends with white space |
| `JsText.IndexOf` | script.js:78 | the index of the first occurrence of the separator, or the length when there is none |
| `JsText.Split` | script.js:78 | `split(',')` always yields at least one piece, even for the empty string |
| `JsText.SplitPiecesFree` | script.js:78 | no piece of a split contains the separator |
| `JsText.SplitThenJoin` | script.js:78 | joining the pieces with the separator gives back the input |
| `JsText.JoinThenSplit` | script.js:78 | splitting the join of separator-free pieces gives back exactly those pieces |
| `JsText.SplitAround` | script.js:78 | a separator between two texts splits them apart: the pieces are those of the left text followed by those of the right |
| `JsText.Tokens` | script.js:174 | `split(/\s+/)` always yields at least one piece |
| `JsText.TokensHaveNoSpace` | script.js:174 | no piece of a white-space split contains white space |
| `JsText.TokensAreSqueezedPieces` | script.js:174 | the white-space split equals the split on a single space of the text with every white-space run squeezed to one space. Leading and trailing runs give the empty first and last pieces |
| `JsText.LowerAll` | script.js:173-174 | lower-cases every piece of a list, keeping its length |
| `JsText.TokensOfLower` | script.js:173-174 | lower-casing and then splitting gives the same pieces as splitting and then lower-casing each piece |
| `JsText.TokensOfWord` | script.js:174 | a text without white space is a single piece |
| `JsText.TokensAroundBlank` | script.js:174 | one blank between a text that does not end with white space and one that does not start with it splits them apart: the pieces of the left text, then those of the right |
| `JsText.JoinThenTokens` | script.js:174 | splitting words of visible ASCII characters joined by single blanks gives back exactly those words |
| `RegExpEscape.EscapeRegExp` | script.js:251-253 | puts a backslash before each character that is special in a pattern (`.` `*` `+` `?` `^` `$` `{` `}` `(` `)` `[` `]`, the backslash and the vertical bar) and copies every other character. The result is never shorter than the word |
| `RegExpEscape.EscapedIsLiteral` | script.js:251-253 | the escaped word, read as a pattern, consists of literal atoms only (a backslash before each special character, nothing special left bare), and those atoms spell the word |
| `RegExpEscape.EscapeLength` | script.js:251-253 | the escaped word is longer than the word by exactly the number of special characters in it |
| `RegExpEscape.EscapeAppend` | script.js:251-253 | escaping works character by character: escaping a concatenation concatenates the escapes |
| `RegExpEscape.EscapeKeepsPlainText` | script.js:251-253 | a word without special characters is left unchanged |
| `TargetWords.Normalize` | script.js:79 | one comma-separated piece, trimmed and then lower-cased |
| `TargetWords.KeepWords` | script.js:79-80 | the normalized pieces, in input order, with the empty ones dropped |
| `TargetWords.ParseTargetWords` | script.js:76-80 | every parsed word is non-empty and free of commas. It neither starts nor ends with white space and holds no capital letter |
| `TargetWords.NormalizeShape` | script.js:79-80 | a trimmed, lower-cased piece that survives the filter is a well-formed target word |
| `TargetWords.KeepWordsAppend` | script.js:79-80 | the map-and-filter step works piece by piece, keeping input order |
| `TargetWords.NormalizeTargetWord` | script.js:79 | trimming and lower-casing a well-formed target word leaves it unchanged |
| `TargetWords.KeepTargetWords` | script.js:79-80 | a list of well-formed target words passes the map-and-filter step unchanged, duplicates included |
| `TargetWords.ParseSinglePiece` | script.js:76-80 | text without a comma yields its trimmed, lower-cased form as the only word, or nothing when that is empty |
| `TargetWords.ParseAroundComma` | script.js:76-80 | a comma separates the words of the text on its left from those on its right, in order. With `ParseSinglePiece` this fixes the parse of every input |
| `TargetWords.ParseJoinRoundTrip` | script.js:76-80 | writing a parsed list back with commas and parsing it again gives the same list |
| `Tally.Get` | script.js:185 | a lookup answers a value exactly when the word is a key of the map, and that value is the word's entry |
| `Tally.Plus` | script.js:185 | adding a count to a stored number gives a number larger by the count. Adding to a missing entry (`undefined`) or to NaN gives NaN |
| `Tally.Stored` | script.js:197 | the preview's reading of the map, falling back to 0: the stored number, or 0 when the entry is missing or NaN |
| `Tally.Count` | script.js:178 | the number of pieces equal to the word |
| `Tally.CountIsMultiplicity` | script.js:178 | the count of a word is its multiplicity in the multiset of the pieces |
| `Tally.Words` | script.js:173-174 | the pieces of the lower-cased fragment split on runs of white space |
| `Tally.Match` | script.js:177-189 | one target word's turn: nothing when it has no match. Otherwise an interim fragment previews the stored count plus the matches, and a final one stores and shows the old entry plus the matches |
| `Tally.Process` | script.js:177-189 | each target word's turn, in list order, on the map and the elements |
| `Tally.CountPositive` | script.js:178 | a word has at least one match in a list of pieces exactly when it is one of them |
| `Tally.CountAppend` | script.js:178 | the matches in two lists of pieces add up |
| `Tally.MatchesNeedBoth` | script.js:177-186 | copies in the target list times matches in the fragment is positive exactly when the word is both a target and a piece of the fragment |
| `Tally.CountLowerAll` | script.js:173-178 | the matches among the lower-cased pieces are the pieces whose lower case equals the word |
| `Tally.MatchIgnoresCase` | script.js:173-178 | the matches of a word in a fragment are the white-space pieces of the fragment whose lower case equals the word |
| `Tally.PhraseNeverMatches` | script.js:174-178 | a target word containing white space is never matched |
| `Tally.WholeWordsOfFragment` | script.js:173-178 | the fragment "Cat cats CAT cat," (its four words joined by blanks) holds "cat" twice: capitals are folded, while "cats" and "cat," are pieces of their own |
| `Tally.MatchSame` | script.js:183-186 | a final match of a word adds the fragment's count to its entry and shows the new tally on its element |
| `Tally.MatchOther` | script.js:177-186 | handling one target word leaves every other word's entry and element alone and creates no element |
| `Tally.ProcessKeepsElements` | script.js:177-189 | processing a fragment neither adds nor removes a counter element |
| `Tally.InterimKeepsCounts` | script.js:179-182 | an interim fragment leaves the counts map exactly as it was |
| `Tally.InterimPreview` | script.js:177-199 | after an interim fragment, a matched word's element previews its stored count (0 when missing or NaN) plus the fragment's matches, however often the word is listed. An unmatched word's element is unchanged |
| `Tally.FinalAddsMatches` | script.js:177-186 | a final fragment adds copies-in-the-list times matches-in-the-fragment to each word's entry. A missing or NaN entry becomes NaN once anything is added, and a word without matches keeps its entry |
| `Tally.FinalNeverDecreases` | script.js:183-186 | after a final fragment, no count is lower: a number stays a number at least as large, and NaN stays NaN |
| `Tally.FinalKeys` | script.js:183-186 | after a final fragment the map holds exactly the old keys plus the target words the fragment matched |
| `Tally.FinalShowsTally` | script.js:183-186 | after a final fragment, a matched word's element shows its new stored tally. An unmatched word's element is unchanged |
| `Tally.FinalAfterResetIsNaN` | script.js:130 | after the map has been emptied, the first final match of a target word stores NaN |
| `Recognition.Pending` | script.js:141 | the results from `resultIndex` to the end, none when `resultIndex` is past the end |
| `Recognition.FinalText` | script.js:145-146 | `finalTranscript`: the texts of the final results, concatenated in order |
| `Recognition.Snapshot` | script.js:159-165 | the new transcript: the final texts of the visited results, followed by a space and the last result's text when that result is interim |
| `Recognition.Feed` | script.js:141-152 | one result is processed as final or interim by its flag |
| `Recognition.FeedAll` | script.js:141-157 | the results processed one after the other, in order |
| `Recognition.LatestConfidence` | script.js:154-156 | the confidence shown after a run of results. Whenever it differs from the one shown before, it is a positive confidence |
| `Recognition.FeedAllSnoc` | script.js:141-157 | feeding one more result is processing it after the earlier ones |
| `Recognition.FinalTextSnoc` | script.js:145-152 | a final result's text is appended to the final transcript. An interim result adds nothing to it |
| `Recognition.LatestConfidenceSnoc` | script.js:154-156 | only a positive confidence replaces the one shown |
| `Recognition.EventAddsFinalMatches` | script.js:141-157 | over an event, each entry grows by copies-in-the-list times the word's matches in the visited final results. Interim results leave no trace in the map |
| `Recognition.InterimEventKeepsCounts` | script.js:148-152 | an event of interim results only leaves the map exactly as it was |
| `Recognition.EventNeverDecreases` | script.js:141-157 | no count is lower after an event |
| `Recognition.EventKeepsElements` | script.js:141-157 | an event neither adds nor removes a counter element |
| `Recognition.FinalTextAppend` | script.js:145-146 | the final transcript of two runs of results is their final transcripts concatenated |
| `Recognition.FinalTextOfSameFinals` | script.js:141-152 | results that agree on which are final and on the final texts give the same final transcript |
| `Recognition.SnapshotIgnoresEarlierInterims` | script.js:159-165 | the snapshot depends only on the final texts and the last result. Earlier interim texts never reach it |
| `Recognition.SnapshotShape` | script.js:159-165 | the snapshot is the final texts of the visited results in order, then the last result's text after one space when that result is interim |
| `Recognition.SingleInterim` | script.js:159-162 | a lone interim result gives a snapshot of a space and its text |
| `Recognition.FinalThenInterim` | script.js:159-165 | a final "the cat sat" and an interim "on the mat" give the snapshot "the cat sat on the mat" |
| `Recognition.ConfidenceKeptWithoutPositive` | script.js:154-156 | when no visited result has a positive confidence, the confidence element keeps what it showed |
| `Recognition.ConfidenceIsLatestPositive` | script.js:141-157 | the confidence element shows the last positive confidence among the visited results |
| `Listening.Step` | script.js:40-60 | `onstart` sets the flag, the stop button and `onerror` clear it, and `onend` and the start button keep it. Only those three signals ever change it |
| `Listening.Restarts` | script.js:56-60 | `onend` restarts the recogniser exactly when the flag is set, and the flag then stays set |
| `Listening.Run` | script.js:40-60 | the flag after a trace of signals: set when the last signal is `onstart`, cleared when it is the stop button or `onerror` |
| `Listening.OnlyStartedSetsListening` | script.js:40-41 | without `onstart`, the listening flag never becomes true and `onend` never restarts the recogniser |
| `Listening.StartClicksChangeNothing` | script.js:106-118 | the start button alone changes neither the flag nor the restarts |
| `Listening.RunAppend` | script.js:40-60 | the flag and the restart count of a trace compose over concatenation |
| `Listening.QuietAfterStop` | script.js:120-127 | after `stopListening` (stop button or `onerror`), the flag stays false and `onend` restarts nothing until the next `onstart` |
| `Listening.EndWhileListeningRestarts` | script.js:56-60 | while listening, every `onend` restarts the recogniser and the flag stays set |
| `Counter.Zeros` | script.js:85-92 | the rebuilt map has exactly the distinct target words as keys, each mapped to 0 |
| `Counter.ZeroShown` | script.js:87-92 | there is one counter element per distinct target word, each showing 0 |
| `Counter.WordCounter.constructor` | script.js:2-13 | starts not listening with an empty transcript. The words are parsed from the input, every word's count and element is 0, and the status says so when speech is unsupported |
| `Counter.WordCounter.UpdateTargetWords` | script.js:76-83 | the target list becomes the parse of the input. Earlier counts are forgotten and each distinct word maps to 0, duplicates sharing one key |
| `Counter.WordCounter.InitializeCounters` | script.js:85-93 | the map and the elements are rebuilt from the target list, everything else unchanged |
| `Counter.WordCounter.ResetAllCounters` | script.js:129-135 | the map is left empty, the transcript is cleared and every element is blanked. The target list is unchanged and the status reads "All counters reset" |
| `Counter.WordCounter.UpdateAllCounters` | script.js:221-225 | every target word's element is blanked and nothing else changes |
| `Counter.WordCounter.UpdateCounterDisplay` | script.js:192-219 | a preview shows the stored count (0 when missing or NaN) plus the fragment's count. A final update shows the given tally, or blank text when none is given. A word without an element is ignored |
| `Counter.WordCounter.MatchTarget` | script.js:177-189 | the `forEach` callback for one target word: the map and the elements become `Tally.Match` of the old ones for that word and its matches in the fragment |
| `Counter.WordCounter.ProcessTranscript` | script.js:170-190 | the map and the elements become `Tally.Process` of the old ones. The target list, transcript, flag and status are unchanged |
| `Counter.WordCounter.HandleSpeechResult` | script.js:137-168 | the map and the elements are those after feeding the results from `resultIndex` on, in order. The transcript is the snapshot and the confidence is the last positive one |
| `Counter.WordCounter.OnStart` | script.js:40-44 | the flag becomes true and the status reads "Listening... Speak now!" |
| `Counter.WordCounter.OnEnd` | script.js:56-60 | the recogniser is restarted exactly when the flag is set |
| `Counter.WordCounter.StopListening` | script.js:120-127 | the flag becomes false, the recogniser is told to stop if there is one, and the status reads "Stopped listening" |
| `Counter.WordCounter.OnError` | script.js:50-54 | the flag becomes false and the status ends as "Stopped listening", overwriting the error text |
| `Counter.WordCounter.StartListening` | script.js:106-118 | the flag is unchanged. Without a recogniser the status reads "Speech recognition not available"; when `start` throws it reads "Error starting speech recognition"; otherwise the request is accepted |

## Left out

- The DOM is not modelled beyond the text of the counter elements, the status line and the confidence value. This leaves out:
  - element lookup and the HTML built by `createCounterElement`;
  - CSS classes and the `setTimeout` animations;
  - `updateUI`'s button states, including the start button disabled when speech is unsupported;
  - `updateTranscript`'s regular-expression highlighting, which depends on `\b` word boundaries. `escapeRegExp` is modelled.
- The model keys the counter elements by word, and assumes `querySelector` finds the element of every target word. This leaves out:
  - the second element created for a duplicated word, which `querySelector` never reaches and which keeps showing 0;
  - words whose `"` or `\` make the selector invalid, or whose HTML characters change the `data-word` attribute.
- The Web Speech API is not modelled: its construction, `lang` and `continuous` settings, `start`/`stop`, and the events it delivers when it chooses to. Events are values. A `start` that throws inside `onend` (uncaught) is not modelled.
- Only the first alternative `results[i][0]` of each result is modelled, as the source reads only that one.
- Counts are unbounded naturals (`Tally.Num`). JavaScript keeps them as doubles, which count exactly only up to 2^53, so the rounding of a count beyond 2^53 is not modelled.
- The confidence is a real number. The display text `toFixed(1)` of `confidence * 100` and floating-point rounding are not modelled.
- `toLowerCase` is modelled on the ASCII letters only. Unicode case mapping is not modelled.
- `interimTranscript` is accumulated in `HandleSpeechResult` as in the source, which never reads it.
- `console.log`/`console.error` and the `DOMContentLoaded` bootstrap are not modelled.
- `Counter.WordCounter.constructor` takes the initial status text and the initial word input as parameters, because both come from the page's HTML.
