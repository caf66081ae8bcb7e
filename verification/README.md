# Verified models of Dina's stateful cores

A Dafny model of the small algorithms and protocols inside Dina's Brain, Core and App packages, with
proofs of the properties they exist for. Each module is one file; `dafny verify dfyconfig.toml` checks
them all.

What the source changes in place is a class or a loop here, and is proved against a specification on
values; the main theorems are about those specifications.

**Personal data** (`Regex`, `RegexMatcher`, `PiiPatterns`, `Checksums`, `Spans`, `Tokens`, `Rehydration`,
`Scrubbing`, `Detection`, `EntityVault`, `SyntheticData`). Both pattern tables are written out in a small
language of expressions with JavaScript's backtracking order, which is that of the matcher in ECMA-262
(`RegexMatcher`). Two things are proved about them. Nothing is lost: a static analysis of the expressions,
sound for every expression, shows that no match touches a token `[TYPE_n]` with `n` below 10^9; so the two
tiers of replacements amount to one, and rehydration inverts scrubbing exactly when no token the vault
holds occurs in the text. (The bound is one of the code: the telephone expression matches inside larger
tokens. It matters only for a text that holds such a token itself, or in which the first tier finds 10^9
matches, which no JavaScript engine's string can hold.) And nothing is missed: wherever an expression
matches lies inside a hit which, if valid, starts in a span that is replaced, and nothing else is replaced
(`Scrubbing`); `Detection` says of several kinds of documents what that means in terms of the text.

**The guard** (`Sentences`, `SentenceSplitter`, `SplitterRefinement`, `SplitterRestoration`,
`SplitterCorrectness`, `ResponseTokens`, `GuardScan`). `Sentences` says what a sentence is, without
placeholders, and that dropping sentences and joining the rest leaves the rest. The splitter with its
placeholders cuts every text where the sentences end (`SplitterRefinement`), and gives the parts back
exactly when no placeholder is met where it is not meant (`SplitterRestoration`); a text without an
`ABBRn` followed by NUL is such a text, and two that are not are given (`SplitterCorrectness`). Where the
splitter is right, a stripped response splits into the kept sentences, and a second scan by expressions
flags nothing in it, unless raw data is looked for that was not looked for before. `ResponseTokens` says
where tokens can occur.

**Requests** (`CircuitBreakers`, `RequestRetry`). Calls overlap and end late, in any order; a run is a
sequence of admissions, successes and failures under a monotone clock. The number of calls and of
requests during an outage is bounded, and the bound is attained.

**Ownership across awaits** (`NodeBootstrap`, `PdsSession`). What happens between two awaits is one
event, and the theorems are about every interleaving: who owns the booted node and when it is disposed
of, and how many logins can be in flight.

**Contacts** (`ContactMatching`). Longest-first matching in its two implementations, and exactly when
they agree.

**Conversations and priorities** (`ChatThread`, `EventBatching`, `Silence`, `CommandParser`,
`ActionRisk`, `Briefing`). Invariants over whole runs, a parser with its inverse, and the selection and
ordering of the daily briefing.

`Text`, `Decimal`, `Sequences`, `Sorting` and `Wrappers` hold what several modules use.

## Where the code differs from its comments, or from what one would expect

The model follows the code.

- `guard_scan.ts` reports a response with unrehydrated tokens as blocked, but flags no sentence, so
  stripping leaves the tokens (`GuardScan.TokensAreNotStripped`, `GuardScan.TokensSurvive`).
- `guard_scan.ts` takes its placeholders for text that no response holds. A response with a NUL can be
  split wrongly, even if it holds no placeholder; `SplitterCorrectness.SplitterIsSentences` says which,
  and `NulBreaksSplitter` and `TailBreaksSplitter` show two.
- `silence.ts` downgrades tier 2 in do-not-disturb mode and quiet hours; a user's override to tier 2 is
  returned all the same (`Silence.QuietOrOverridden`).
- `silence.ts` keeps keywords and the model from making a marketing source fiduciary; repetition still
  does, and the count it calls recent never goes down (`Silence.MarketingOverRuns`,
  `Silence.EscalationStays`).
- `assembly.ts` says that items of the same priority keep their order; they are sorted by time. A source
  named like an inherited property of an object, such as `constructor` or `__proto__`, has no numeric
  priority. That can make the comparator inconsistent, and then the language leaves the order open
  (`Briefing.ConsistentWhen`, `Briefing.SortsWhen`, `Briefing.EngagementIsOrdered`).
- `http.ts` says that the in-process path has no circuit-breaker loop; it runs inside `execute` like the
  other path.
- `publisher.ts` promises a fresh login after an invalidation; a login already under way is cached
  nevertheless, and its callback also forgets a newer one. The promise is kept exactly if no login is in
  flight at the invalidation (`PdsSession.InvalidationForcesLogin`).
- `useNodeBootstrap.ts` waits for a pending teardown before it boots, but a boot whose instance has
  gone meanwhile is not waited for. With one instance mounted at a time the wait works exactly if no
  instance is unmounted while it boots (`NodeBootstrap.NoOverlap`, `NodeBootstrap.OverlapIff`). Of two
  mounted at once both may boot, and one node can be lost, if the second mounts while the first is about
  to boot, and only then (`NodeBootstrap.UncrowdedIsClean`, `NodeBootstrap.LeakIff`).
- `action_risk.ts` expires proposals when they are approved or asked about, not when they are rejected:
  what comes first decides (`ActionRisk.FirstDecides`).
- `silence.ts` joins source and type with a colon that both may contain, so that different groups can
  share a fingerprint (`EventBatching.SameFingerprint`).
- `matcher.ts` ignores names of two characters, `alias.ts` does not (`ContactMatching.Agreement`).
- `command_parser.ts` keeps the original text of a slash command trimmed only
  (`CommandParser.OriginalText`).

## How the source is represented

- Strings are sequences of Unicode scalar values, where JavaScript counts UTF-16 units.
- Clocks, random ids, what a request, a repository, a login, a boot or a model answers, and whether it
  fails, are parameters or events. Ids are fresh where a theorem says so.
- `toLowerCase` is written out where ASCII letters decide (it also maps the Kelvin sign); elsewhere it is
  a parameter, as is the case folding of a contact expression.
- The word lists of the guard and of the priority rules are predicates on text. Theorems about trimmed
  sentences assume that the guard's predicates ignore white space at the ends.
- A JavaScript `Map` or `Set` whose order matters is a sequence without duplicates in order of
  insertion. `Array.prototype.sort` is a stable insertion sort, which is what it amounts to for a
  consistent comparator. Where the comparator can be inconsistent, in `Briefing`, the sort is a parameter
  of which only what the language demands is known.
- Confidences are reals, and so are the sentence indices that a model may answer with.
- No proof rests on Dafny's automatic induction: inductive lemmas call themselves.

## Model

| member | source | states |
|---|---|---|
| Checksums.LuhnCheck | packages/core/src/pii/patterns.ts:261-278 | The in-place loop accepts exactly the texts that, stripped of separators, are 13 to 19 digits with a weighted digit sum divisible by ten |
| Checksums.LuhnByPlace | packages/core/src/pii/patterns.ts:261-278 | Stated by place: from the right every second digit is doubled, less 9 if that has two digits, and the sum of all is divisible by ten |
| Checksums.LuhnDetectsOneDigit | packages/brain/src/pii/tier2_patterns.ts:35-36 | An accepted card number with any one digit changed, separators anywhere, is rejected |
| Checksums.LuhnDetectsTransposition | packages/brain/src/pii/tier2_patterns.ts:35-36 | Exchanging two neighbouring digits of an accepted number keeps it accepted if and only if they are equal or are 0 and 9 |
| Checksums.BsnCheck | packages/brain/src/pii/tier2_patterns.ts:58-59 | The loop accepts exactly the nine-digit texts whose weighted sum is a positive multiple of eleven |
| Checksums.BsnByPlace | packages/brain/src/pii/tier2_patterns.ts:58-59 | Stated by place: nine digits whose sum, weighed with 9 down to 2, less the last digit, is a positive multiple of eleven |
| Checksums.BsnDetectsOneDigit | packages/brain/src/pii/tier2_patterns.ts:58-59 | An accepted BSN with any one digit changed is rejected |
| Checksums.BsnDetectsTransposition | packages/brain/src/pii/tier2_patterns.ts:58-59 | An accepted BSN with any two unequal digits exchanged, adjacent or not, is rejected |
| Regex.EndsAreSound | packages/brain/src/pii/tier2_patterns.ts:32-75 | For every expression and text: every match the backtracking matcher can produce is free of brackets and dollar signs and has the digits, foreign characters and boundaries that the expression's analysis promises |
| Regex.Exec | packages/brain/src/pii/tier2_patterns.ts:126 | A hit starts at or behind the last index and is the preferred one of the matches that start there |
| Regex.ExecIsLeftmost | packages/brain/src/pii/tier2_patterns.ts:126 | Nothing matches between the last index and the hit, and nothing matches at all if there is none |
| RegexMatcher.MatcherTriesEnds | packages/brain/src/pii/tier2_patterns.ts:126 | For every expression, text, position and continuation: the matcher of ECMA-262, with continuations and RepeatMatcher, yields what trying the ends of this model in their order yields |
| RegexMatcher.ExecIsStandard | packages/brain/src/pii/tier2_patterns.ts:126 | So exec finds the first position at which that matcher succeeds, with the end with which it does, and nothing only if it succeeds nowhere |
| PiiPatterns.Tier1IsSafe | packages/core/src/pii/patterns.ts:38-141 | No match of any first-tier expression, in any text, has a bracket; none can lie inside a token whose number is below 10^9 |
| PiiPatterns.Tier2IsSafe | packages/brain/src/pii/tier2_patterns.ts:32-75 | The same for every second-tier expression: what makes second-tier spans miss first-tier tokens |
| PiiPatterns.CandidatesAreDetected | packages/brain/src/pii/tier2_patterns.ts:121-130 | Every validated candidate is a non-empty piece of the text, at the position it names, without delimiters |
| PiiPatterns.CandidatesStand | packages/brain/src/pii/tier2_patterns.ts:121-130 | Every candidate is the preferred match, where it starts, of an entry of the table, has its type and is accepted by its validator, if there is one |
| PiiPatterns.PositionIsReported | packages/brain/src/pii/tier2_patterns.ts:121-130 | Wherever an expression of a table matches lies inside a hit, the preferred match where it starts; and every hit without validator, or accepted by it, is a candidate |
| PiiPatterns.OctetsMean | packages/core/src/pii/patterns.ts:71-74 | Of an address made of numbers, as they are printed, with full stops between them, exactly those pass whose numbers are all at most 255 |
| PiiPatterns.UsPhoneMeans | packages/core/src/pii/patterns.ts:92-96 | A telephone number passes exactly if it has ten digits, or eleven of which the first is 1 |
| PiiPatterns.AadhaarMeans | packages/core/src/pii/patterns.ts:115-119 | An Aadhaar number passes exactly if it has twelve characters other than separators, the first of which is neither 0 nor 1 |
| PiiPatterns.UpiMeans | packages/core/src/pii/patterns.ts:136-139 | A payment address passes exactly if what follows its only at sign holds no full stop |
| Spans.RunPattern | packages/brain/src/pii/tier2_patterns.ts:124-129 | The exec loop over one pattern collects exactly the validated successive leftmost matches |
| Spans.RunPatterns | packages/brain/src/pii/tier2_patterns.ts:121-139 | Collecting, sorting and the pass with the running end yield the greedy selection from all candidates |
| Spans.KeepFirst | packages/brain/src/pii/tier2_patterns.ts:133-137 | The pass with the running end keeps exactly the matches that start at or behind the end of the last one kept |
| Spans.SelectIsGreedy | packages/brain/src/pii/tier2_patterns.ts:131-138 | The selection is ascending and disjoint, consists of candidates, and every candidate starts inside a kept span that is not shorter if both start together |
| Spans.PositionIsKept | packages/brain/src/pii/tier2_patterns.ts:121-138 | And it starts inside a match that is kept, and is not longer if both start together |
| Spans.SpliceFirst | packages/brain/src/pii/entity_vault.ts:76 | Splicing a replacement in front of all those made so far extends the left-to-right rendering by one span: the step that makes back-to-front equal forward |
| EntityVault.DetectPII | packages/core/src/pii/patterns.ts:148-172 | The first tier's spans are the greedy selection from its candidates |
| EntityVault.DetectTier2 | packages/brain/src/pii/tier2_patterns.ts:78-81 | The second tier's spans are the greedy selection from its candidates in the tokenized text |
| Scrubbing.FirstDetects | packages/core/src/pii/patterns.ts:148-172 | In the first tier: wherever one of its expressions matches in the text lies inside a hit that, if valid, starts inside a span that is replaced |
| Scrubbing.SecondDetects | packages/brain/src/pii/tier2_patterns.ts:78-81 | In the second tier the same, in the text that the first has tokenized |
| Scrubbing.TiersStand | packages/core/src/pii/patterns.ts:148-172 | And nothing is replaced but valid preferred matches of an entry of the tier's table |
| Detection.SsnReads | packages/core/src/pii/patterns.ts:63 | In every text the SSN expression matches exactly three, two and four digits with dashes between them, as a word |
| Detection.NumbersRead | packages/brain/src/pii/tier2_patterns.ts:58 | An expression for n digits matches exactly n digits that stand as a word |
| Detection.PansRead | packages/core/src/pii/patterns.ts:124 | The PAN expression matches exactly five capitals, four digits and a capital, as a word |
| Detection.IfscsRead | packages/core/src/pii/patterns.ts:129 | The IFSC expression matches exactly four capitals, a zero and six capitals or digits, as a word |
| Detection.SteuerReads | packages/brain/src/pii/tier2_patterns.ts:56 | The German tax number's expression matches exactly eleven digits not led by a zero, as a word |
| Detection.PassportsRead | packages/brain/src/pii/tier2_patterns.ts:74 | The passport expression matches exactly a capital and seven digits, as a word |
| Detection.FirstTierReplaces | packages/core/src/pii/patterns.ts:148-172 | In every text each SSN, 16-digit account number, PAN and IFSC code that stands as a word begins inside a span that the first tier replaces, and does not reach beyond it if both begin together |
| Detection.SecondTierReplaces | packages/brain/src/pii/tier2_patterns.ts:78-81 | In every text that the first tier has tokenized the same of each tax number, passport number and valid BSN, and of the second tier |
| Detection.EmailMatches | packages/core/src/pii/patterns.ts:80 | An e-mail address anywhere in a text, whatever stands around it, is a match of the e-mail expression |
| Detection.EmailIsDetected | packages/core/src/pii/patterns.ts:148-172 | So it begins inside the preferred match of that expression, the start of which lies in a span that the first tier replaces |
| EntityVault.NumberMatches | packages/core/src/pii/patterns.ts:189-198 | The numbering loop issues to each match the next token of its type |
| EntityVault.SpliceBackwards | packages/core/src/pii/patterns.ts:200-205 | The back-to-front splicing loop produces the forward rendering of gaps and tokens |
| EntityVault.ScrubPII | packages/core/src/pii/patterns.ts:178-208 | The first tier's scrubbed text is the text rendered with its tokens, and its entities are the matches with their tokens, in order |
| EntityVault.ApartAscends | packages/core/src/pii/patterns.ts:186-187 | Disjoint ascending matches are in order of their starts, so that this sort keeps them as they are |
| EntityVault.NothingIsDropped | packages/brain/src/pii/entity_vault.ts:58-61 | The filter on second-tier matches that look like tokens never drops one |
| EntityVault.SortReverses | packages/brain/src/pii/entity_vault.ts:64 | Sorting disjoint ascending matches by descending start reverses them |
| EntityVault.EntityVault.constructor | packages/brain/src/pii/entity_vault.ts:20-23 | A vault starts without entries and without counts |
| EntityVault.EntityVault.Scrub | packages/brain/src/pii/entity_vault.ts:36-80 | Entries, counts and text after a call are those of the two-tier specification, from any state of the vault |
| EntityVault.EntityVault.RecordFirst | packages/brain/src/pii/entity_vault.ts:40-49 | The first loop sets one entry per entity and counts each type on |
| EntityVault.EntityVault.RecordSecond | packages/brain/src/pii/entity_vault.ts:63-77 | Sorting and the second loop number from the right, on from the counts, and yield the forward rendering |
| EntityVault.EntityVault.RecordSorted | packages/brain/src/pii/entity_vault.ts:65-77 | The same for matches already in descending order |
| EntityVault.EntityVault.ReplaceFromRight | packages/brain/src/pii/entity_vault.ts:65-77 | The loop itself: map, counts and respliced text reach the goal that numbering and rendering define |
| EntityVault.EntityVault.Enter | packages/brain/src/pii/entity_vault.ts:66-74 | One round takes the next number of the type and sets its entry |
| EntityVault.EntityVault.Rehydrate | packages/brain/src/pii/entity_vault.ts:86-92 | Rehydration replaces the tokens of all entries and changes nothing in the vault |
| EntityVault.EntityVault.Clear | packages/brain/src/pii/entity_vault.ts:113-115 | Clearing forgets every entry and leaves the counts |
| Scrubbing.IssuedEntry | packages/core/src/pii/patterns.ts:193-198 | Entry i holds the value of match i and the token whose number counts the matches of its type up to it |
| Scrubbing.IssuedIsValid | packages/brain/src/pii/entity_vault.ts:36-80 | All tokens of one call are distinct across both tiers, whatever the counts before; all values are free of delimiters |
| Scrubbing.EntriesStayValid | packages/brain/src/pii/entity_vault.ts:41-45 | Every call keeps the map a map from well-formed tokens to delimiter-free values |
| Scrubbing.Merge | packages/brain/src/pii/entity_vault.ts:51-77 | Two tiers of replacements, the second in the first one's output, amount to one set of disjoint spans of the original text: no second-tier span touches a token |
| Scrubbing.RoundTrip | packages/brain/src/pii/entity_vault.ts:36-92 | For every vault, whatever it holds and has counted, and every text: rehydrate after scrub gives the text back if and only if no token then held occurs in it; only the tokens that the first tier writes into the text, and those held that occur in it, need numbers below 10^9 |
| Scrubbing.StaysSmall | packages/brain/src/pii/entity_vault.ts:47-48 | Counts that leave room for the text keep all token numbers below 10^9 |
| Scrubbing.FreshRoundTrip | packages/brain/src/pii/entity_vault.ts:36-92 | The same equivalence for a fresh vault and every text of fewer than 10^9 characters, with no condition on tokens |
| Scrubbing.TokenFreeRoundTrip | packages/brain/src/pii/entity_vault.ts:36-92 | A text with no substring of token shape comes back from every vault, whatever the vault holds and has counted |
| Scrubbing.SecondScrub | packages/brain/src/pii/entity_vault.ts:36-92 | After a second text is scrubbed on the same vault the first still comes back if and only if no token now held occurs in it, provided that none of its own tokens was issued again with another value |
| Scrubbing.StillHeld | packages/brain/src/pii/entity_vault.ts:41-45 | The entries of the first text are still held then |
| Tokens.TokenIsInjective | packages/brain/src/pii/entity_vault.ts:68 | Tokens of different types or numbers are different strings, although types contain underscores |
| Tokens.MatchesMissTokens | packages/brain/src/pii/entity_vault.ts:51-61 | No match of either table touches an occurrence of a token with a number below 10^9 |
| Tokens.PhoneTouchesBigTokens | packages/brain/src/pii/tier2_patterns.ts:39 | The bound is exact: the telephone expression matches inside a token if and only if its number is at least 10^9 |
| Rehydration.RehydrateRestores | packages/core/src/pii/patterns.ts:217-228 | Replacing tokens one after another, in whatever order the sort puts them, undoes a rendering whose tokens do not occur in the text |
| Rehydration.ReplaceEachTakesBrackets | packages/core/src/pii/patterns.ts:223-226 | Replacing all tokens takes away at least one bracket per occurrence: why a token already in the text is lost |
| Rehydration.OccursInRender | packages/brain/src/pii/entity_vault.ts:51-77 | A token in a tokenized text is one written there, or it was in the text before: none forms across a seam |
| SyntheticData.Apply | packages/brain/src/pii/tier2_patterns.ts:106-119 | On disjoint matches, given in any order, the loop equals the forward rendering, and the mappings come out from left to right with the stand-in each match received |
| SyntheticData.ReplacementsInOrder | packages/brain/src/pii/tier2_patterns.ts:110-117 | The stand-ins for disjoint ascending matches are disjoint ascending spans of the text |
| SyntheticData.SortedBackwards | packages/brain/src/pii/tier2_patterns.ts:110 | Sorted by descending start, disjoint matches are those in the order of the text, reversed, in whatever order they came |
| Sorting.SortKeepsElements | packages/core/src/pii/patterns.ts:239 | A sort returns a permutation |
| Sorting.SortSorts | packages/core/src/pii/patterns.ts:239 | With a comparator that is consistent among its elements a sequence comes out in order |
| Sorting.SortedIsFixed | packages/core/src/pii/patterns.ts:239 | What is in order already keeps its order, equal elements included |
| Sorting.SortKeepsTies | packages/core/src/pii/patterns.ts:239 | A sort is stable: the elements that tie with a given one keep their order |
| Sorting.SortedOnce | packages/core/src/pii/patterns.ts:239 | Where only equal elements may be exchanged, one permutation alone is in order |
| SentenceSplitter.SplitSentences | packages/brain/src/guardian/guard_scan.ts:109-131 | The imperative splitter (collecting placeholders, splitting, restoring) computes the function whose meaning SplitterIsSentences gives |
| SentenceSplitter.RestorePart | packages/brain/src/guardian/guard_scan.ts:124-130 | The restoring loop replaces the first occurrence of each placeholder in turn |
| SentenceSplitter.RestoreParts | packages/brain/src/guardian/guard_scan.ts:124-130 | The same for every part, each with all placeholders |
| SentenceSplitter.MatchFacts | packages/brain/src/guardian/guard_scan.ts:101 | A match of the abbreviation expression is a whole word of the list, a full stop and one white-space character |
| SentenceSplitter.ProtectedIsMatched | packages/brain/src/guardian/guard_scan.ts:101 | Every full stop of an abbreviation before white space is the end of a match that starts where its word starts |
| SplitterRefinement.GapsCorrespond | packages/brain/src/guardian/guard_scan.ts:112-121 | The protected text has a split point exactly where the original has a stop and white space that no abbreviation owns |
| SplitterRefinement.IntervalsCorrespond | packages/brain/src/guardian/guard_scan.ts:121 | Corresponding split points leave corresponding pieces |
| SplitterRefinement.CutIsSlices | packages/brain/src/guardian/guard_scan.ts:120-121 | Cutting a text into sentences is slicing it at its breaks |
| SplitterRestoration.WrongInForm | packages/brain/src/guardian/guard_scan.ts:126-128 | Replacing an earlier placeholder where it occurs in a form leaves a letter for a NUL of the text, or a NUL for a letter; where it does not occur, nothing changes |
| SplitterRestoration.NeverMended | packages/brain/src/guardian/guard_scan.ts:124-130 | Where a letter stands for a NUL, or a NUL for a letter, no sequence of later replacements gives the text back |
| SplitterRestoration.NoCrossing | packages/brain/src/guardian/guard_scan.ts:126-128 | The first occurrence of a placeholder is that of its match, unless the text in front of it holds one: none reaches across |
| SplitterRestoration.ComesBack | packages/brain/src/guardian/guard_scan.ts:124-130 | Halfway through the replacements, a part comes back if and only if each replacement to come is undisturbed: an earlier placeholder does not occur in the form, one of the part's own not in front of its match, and a later one not in the text |
| SplitterCorrectness.PieceIsRestored | packages/brain/src/guardian/guard_scan.ts:124-130 | Any part between two matches, restored with all placeholders, is the part of the original if and only if none of the replacements is disturbed in it |
| SplitterCorrectness.SplitterIsSentences | packages/brain/src/guardian/guard_scan.ts:109-131 | For every text: the splitter with placeholders returns exactly the sentences (cut at stops and white space, abbreviations excepted, blanks dropped, nothing else altered) if and only if no replacement is disturbed in any of its sentences |
| SplitterCorrectness.EarlierIsAbsent | packages/brain/src/guardian/guard_scan.ts:126-128 | In a text without an ABBRn followed by NUL, no sequence of later placeholders contains or forms an earlier one |
| SplitterCorrectness.TagFreeIsRestorable | packages/brain/src/guardian/guard_scan.ts:114-130 | Every text without an ABBRn followed by NUL is split right |
| SplitterCorrectness.NulFreeIsTagFree | packages/brain/src/guardian/guard_scan.ts:114-118 | So is every text without NUL |
| SplitterCorrectness.NulBreaksSplitter | packages/brain/src/guardian/guard_scan.ts:114-130 | One that is not: it holds a literal placeholder, which is restored instead, and the placeholder stays |
| SplitterCorrectness.TailBreaksSplitter | packages/brain/src/guardian/guard_scan.ts:114-130 | Another, which holds none: the end of one placeholder and the text behind it make an earlier one |
| Sentences.CutPieces | packages/brain/src/guardian/guard_scan.ts:121 | Every piece is whole (no break inside), and adjacent ones end where a break belongs |
| Sentences.FilterPieces | packages/brain/src/guardian/guard_scan.ts:293 | Any selection of pieces still is a list of pieces: dropping sentences joins no two |
| Sentences.CutJoin | packages/brain/src/guardian/guard_scan.ts:294 | Joined by single spaces, pieces are cut into exactly the same pieces |
| Sentences.TrimJoin | packages/brain/src/guardian/guard_scan.ts:294 | Trimming the joined text trims its outer pieces and leaves pieces |
| Sentences.Resplit | packages/brain/src/guardian/guard_scan.ts:287-304 | The sentences of joined and trimmed pieces are the pieces, with the outer ends trimmed |
| ResponseTokens.InsideSentences | packages/brain/src/guardian/guard_scan.ts:112-121 | Whatever has no white space occurs in a text if and only if it occurs in one of its sentences |
| ResponseTokens.TokensBySentence | packages/brain/src/guardian/guard_scan.ts:174-193 | The token expression finds a match in a text if and only if it finds one in a sentence of it |
| ResponseTokens.TokensOfJoin | packages/brain/src/guardian/guard_scan.ts:294 | And in parts joined by spaces and trimmed, for any parts, if and only if it finds one in a part |
| GuardScan.ScanResponse | packages/brain/src/guardian/guard_scan.ts:146-279 | The whole scan: violations in the order of its five passes, flags ascending without duplicates, safe if and only if there are no violations |
| GuardScan.ScanSentences | packages/brain/src/guardian/guard_scan.ts:154-252 | The four passes of expressions report and flag what the pure specification says |
| GuardScan.FlaggedExactly | packages/brain/src/guardian/guard_scan.ts:154-279 | A number is flagged if and only if it is that of a sentence which one of the three anti-Her suites, the trust or the recommendation expressions hit, or which holds raw data in a scrubbed context in which the whole response does, or if the model names it |
| GuardScan.ReportedExactly | packages/brain/src/guardian/guard_scan.ts:154-252 | Without a model exactly these violations are reported: one for each sentence that a suite of its category hits, with that category's severity, and one for tokens and one for raw data in the whole response, with all the sentences that hold them, in ascending order |
| GuardScan.SafeExactly | packages/brain/src/guardian/guard_scan.ts:273-278 | Without a model a response is safe if and only if no sentence is hit and it holds neither tokens nor raw data looked for |
| GuardScan.FlagHits | packages/brain/src/guardian/guard_scan.ts:154-172 | A pass appends one violation per sentence that is hit and adds its index to the set |
| GuardScan.FlagLeaks | packages/brain/src/guardian/guard_scan.ts:174-215 | Tokens are reported and not flagged; raw data is flagged only in a scrubbed context in which the whole response holds some |
| GuardScan.AddModelViolations | packages/brain/src/guardian/guard_scan.ts:257-267 | The model's violations are added without the indices already flagged; those left without index are dropped, those that had none are kept |
| GuardScan.SortedElements | packages/brain/src/guardian/guard_scan.ts:277 | The set, sorted by number, has the same elements in ascending order |
| GuardScan.ParseGuardAnswer | packages/brain/src/guardian/guard_scan.ts:342-396 | The loop over the model's items computes the specified violations; a null item voids the whole answer |
| GuardScan.FlaggedFit | packages/brain/src/guardian/guard_scan.ts:365-381 | Every flag, the model's included, is at least 0 and below the number of sentences |
| GuardScan.KeptExactly | packages/brain/src/guardian/guard_scan.ts:287-304 | What stripping keeps, in order: the sentences not flagged; if nothing is flagged, or without a scan, those that none of the three anti-Her suites hits |
| GuardScan.StrippedSentences | packages/brain/src/guardian/guard_scan.ts:287-304 | The sentences of a stripped response are the kept ones in order, outer ends trimmed; stripping makes no new ones |
| GuardScan.StripSplits | packages/brain/src/guardian/guard_scan.ts:287-304 | If the kept parts are whole, stay apart when joined and are not blank, as for every response that the splitter gets right, then splitting what is left again yields exactly these if and only if the splitter gets what is left right; for every scan and no scan |
| GuardScan.TagFreeSplitsRight | packages/brain/src/guardian/guard_scan.ts:287-304 | It does, before and after, for every response without an ABBRn followed by NUL, and what is left has none either |
| GuardScan.KeptAreClean | packages/brain/src/guardian/guard_scan.ts:290-295 | No kept sentence is hit by any of the three anti-Her suites, the trust or the recommendation expressions, nor holds raw data where it had been looked for |
| GuardScan.StrippedIsClean | packages/brain/src/guardian/guard_scan.ts:287-295 | After stripping, none of the three anti-Her suites, the trust and the recommendation expressions hits any sentence of the response, and none holds raw data where it had been looked for |
| GuardScan.RescanFindsLeaksOnly | packages/brain/src/guardian/guard_scan.ts:146-304 | A second scan by expressions in any context reports leakage at most; it flags nothing unless raw data is newly looked for |
| GuardScan.StripAgain | packages/brain/src/guardian/guard_scan.ts:287-304 | Stripping twice is stripping once without a scan, and with a second scan if and only if that one flags nothing |
| GuardScan.TokensAreNotStripped | packages/brain/src/guardian/guard_scan.ts:174-193 | A response whose only violation is unrehydrated tokens is reported unsafe and stripped of nothing |
| GuardScan.TokenIsLocated | packages/brain/src/guardian/guard_scan.ts:174-193 | Of a response that the splitter gets right: a token is found in the whole if and only if it is reported with at least one sentence |
| GuardScan.TokensSurvive | packages/brain/src/guardian/guard_scan.ts:174-193 | For every response, however it is split and whatever is flagged: what is left holds a token if and only if a kept sentence does |
| CircuitBreakers.CircuitBreaker.constructor | packages/brain/src/core_client/circuit_breaker.ts:51-68 | A breaker starts closed, without failures |
| CircuitBreakers.CircuitBreaker.AllowRequest | packages/brain/src/core_client/circuit_breaker.ts:76-99 | Admission and the move to half-open, from any state |
| CircuitBreakers.CircuitBreaker.RecordSuccess | packages/brain/src/core_client/circuit_breaker.ts:106-121 | A success closes a half-open circuit, clears the count of a closed one and leaves an open one open |
| CircuitBreakers.CircuitBreaker.RecordFailure | packages/brain/src/core_client/circuit_breaker.ts:129-146 | A failure opens at the threshold or after a probe, and moves the time of the last failure in every state |
| CircuitBreakers.CircuitBreaker.Execute | packages/brain/src/core_client/circuit_breaker.ts:181-194 | A call that is refused changes nothing; one that is admitted records how it ended |
| CircuitBreakers.HistoryDetermines | packages/brain/src/core_client/circuit_breaker.ts:51-146 | In every run: probing if and only if half-open; closed means fewer than threshold failures, exactly those since the last success; otherwise at least threshold; the totals count completions |
| CircuitBreakers.Transition | packages/brain/src/core_client/circuit_breaker.ts:76-146 | In every run, what each event makes of each state and which calls are admitted, in terms of the history alone: the failures since the last success and the time of the last failure |
| CircuitBreakers.Quarantine | packages/brain/src/core_client/circuit_breaker.ts:76-121 | From a failure that leaves the circuit open no call is admitted for a cooldown, whatever calls end meanwhile, and how |
| CircuitBreakers.ClosesWhen | packages/brain/src/core_client/circuit_breaker.ts:106-121 | A circuit that is not closed closes exactly when a success is recorded while it is half-open |
| CircuitBreakers.TimesAreKept | packages/brain/src/core_client/circuit_breaker.ts:106-146 | The times kept are those of the last failure and the last success |
| CircuitBreakers.OneProbe | packages/brain/src/core_client/circuit_breaker.ts:76-99 | Once a probe is admitted nothing else is, at any time, until some completion is recorded |
| CircuitBreakers.OutageInvariant | packages/brain/src/core_client/circuit_breaker.ts:76-146 | During an outage every admission has moved the clock, or the last failure, a cooldown on |
| CircuitBreakers.OutageBound | packages/brain/src/core_client/circuit_breaker.ts:76-146 | From opening until closing, with calls overlapping and ending late in any order, admissions times the cooldown are at most the time elapsed |
| CircuitBreakers.BoundIsReached | packages/brain/src/core_client/circuit_breaker.ts:76-146 | For every threshold, cooldown and number of probes some run attains the bound |
| RequestRetry.MakeAttempt | packages/brain/src/core_client/http.ts:641-697 | One attempt ends the request or leaves an error for the next, for every status, body and failure |
| RequestRetry.RequestWithRetry | packages/brain/src/core_client/http.ts:632-699 | The loop sends at most maxRetries + 1 requests; it ends with the first attempt that is final, or throws the last error after exactly that many |
| RequestRetry.RequestInProcess | packages/brain/src/core_client/http.ts:606-630 | In process there is one dispatch, and only 401 and 403 throw |
| RequestRetry.RetriedUnlessDecided | packages/brain/src/core_client/http.ts:654-697 | An attempt is tried again unless it is accepted, with a readable answer below 500 other than 401 and 403, or refused, by 401, 403, an error that speaks of one, or signing that fails |
| RequestRetry.ReturnedExactly | packages/brain/src/core_client/http.ts:632-699 | The request returns an answer if and only if one is accepted before any refusal, within the attempts; then it is the first such answer, after exactly so many requests |
| RequestRetry.AuthMessageIsFound | packages/brain/src/core_client/http.ts:665-688 | The error made for 401 and 403 always is one that the handler does not retry, whatever text the response carries |
| RequestRetry.RequestsPerCall | packages/brain/src/core_client/http.ts:585-592 | Between two moments the requests are at most the calls admitted times what one call sends |
| RequestRetry.OutageRequests | packages/brain/src/core_client/http.ts:585-699 | In an outage, requests times the cooldown are at most (maxRetries + 1) times the time elapsed |
| NodeBootstrap.Bootstrap.constructor | packages/app/src/hooks/useNodeBootstrap.ts:82-87 | No node, no teardown, no instance |
| NodeBootstrap.Bootstrap.Mount | packages/app/src/hooks/useNodeBootstrap.ts:137-188 | A mounted instance waits for a pending teardown, joins a singleton or begins to boot |
| NodeBootstrap.Bootstrap.Unmount | packages/app/src/hooks/useNodeBootstrap.ts:190-208 | The cleanup starts a teardown only if its instance owns the singleton |
| NodeBootstrap.Bootstrap.TornDown | packages/app/src/hooks/useNodeBootstrap.ts:199-205 | The end of a teardown clears the singleton only if it still is that node, and the pending teardown in any case |
| NodeBootstrap.Bootstrap.Resume | packages/app/src/hooks/useNodeBootstrap.ts:144-164 | Behind the awaited teardown an instance goes on as if newly mounted, unless it is gone |
| NodeBootstrap.Bootstrap.BootSucceeds | packages/app/src/hooks/useNodeBootstrap.ts:167-175 | A node becomes owned and the singleton if its instance is still mounted, and is disposed of otherwise |
| NodeBootstrap.Bootstrap.BootFails | packages/app/src/hooks/useNodeBootstrap.ts:176-185 | A boot that throws leaves no node |
| NodeBootstrap.Bootstrap.Discarded | packages/app/src/hooks/useNodeBootstrap.ts:168-171 | A node nobody waited for is gone when its disposal ends |
| NodeBootstrap.StepKeepsInv | packages/app/src/hooks/useNodeBootstrap.ts:140-208 | Every event keeps every live node accounted for: singleton, in teardown, being discarded, or abandoned |
| NodeBootstrap.RunKeepsInv | packages/app/src/hooks/useNodeBootstrap.ts:140-208 | So does every interleaving, with any number of instances |
| NodeBootstrap.QuietNodes | packages/app/src/hooks/useNodeBootstrap.ts:140-208 | Whenever nothing is under way the live nodes are the singleton and the abandoned ones; with nothing mounted there is no singleton |
| NodeBootstrap.AbandonedWhen | packages/app/src/hooks/useNodeBootstrap.ts:167-174 | A node is abandoned if and only if a mounted instance's boot succeeds over a singleton that is not being torn down |
| NodeBootstrap.RunKeepsSingle | packages/app/src/hooks/useNodeBootstrap.ts:140-208 | With at most one instance mounted at a time no node is ever abandoned, and the mounted instance owns the singleton |
| NodeBootstrap.QuietNodesOfOne | packages/app/src/hooks/useNodeBootstrap.ts:140-208 | With at most one instance mounted at a time, in every quiescent state the live nodes are exactly the singleton, and none when nothing is mounted |
| NodeBootstrap.NoBootDuringTeardown | packages/app/src/hooks/useNodeBootstrap.ts:141-164 | With at most one instance mounted at a time, no boot begins while a teardown is pending or a singleton exists |
| NodeBootstrap.OnlyGoneBootsOverlap | packages/app/src/hooks/useNodeBootstrap.ts:141-171 | A boot that is under way while a teardown is pending belongs to an instance already unmounted |
| NodeBootstrap.NoOverlap | packages/app/src/hooks/useNodeBootstrap.ts:140-208 | With at most one instance mounted at a time, and if no unmount met an instance that was booting, no boot is under way while a teardown is pending |
| NodeBootstrap.OverlapIff | packages/app/src/hooks/useNodeBootstrap.ts:140-208 | If from some moment on that is so, a boot can come to overlap a pending teardown if and only if an instance that is gone is booting at that moment |
| NodeBootstrap.GoneBootCanOverlap | packages/app/src/hooks/useNodeBootstrap.ts:140-208 | Whatever came before, each boot of a gone instance comes to overlap a teardown in some such continuation |
| NodeBootstrap.GoneBootOverlaps | packages/app/src/hooks/useNodeBootstrap.ts:141-171 | Such a run: mount, unmount, mount, boot, unmount |
| NodeBootstrap.UncrowdedIsClean | packages/app/src/hooks/useNodeBootstrap.ts:140-208 | With any number of instances: if no instance is mounted while another is about to boot and a teardown is pending or no node is there, no node is ever abandoned, and in every quiescent state the live nodes are exactly the singleton, and none when nothing is mounted |
| NodeBootstrap.CrowdedLeaks | packages/app/src/hooks/useNodeBootstrap.ts:140-208 | From the first mount that breaks this rule, whatever came before, some continuation without another mount abandons a node |
| NodeBootstrap.LeakIff | packages/app/src/hooks/useNodeBootstrap.ts:140-208 | So, if all mounts before and behind it keep the rule, a mount can lead to a node that is never disposed of if and only if it breaks it |
| NodeBootstrap.OverlappingMountsLeak | packages/app/src/hooks/useNodeBootstrap.ts:149-174 | Such a run: two instances mounted at once, and a node that is never disposed of |
| PdsSession.Publisher.constructor | packages/brain/src/pds/publisher.ts:93-112 | No session, no login under way |
| PdsSession.Publisher.EnsureSession | packages/brain/src/pds/publisher.ts:212-224 | A caller gets the cached session if it has not expired, the login under way if there is one, and otherwise its own |
| PdsSession.Publisher.LoginEnds | packages/brain/src/pds/publisher.ts:226-252 | A login that succeeds is cached, also if it was invalidated meanwhile; one that fails leaves the cache |
| PdsSession.Publisher.Finally | packages/brain/src/pds/publisher.ts:220-222 | The callback forgets the login under way, whichever that is by then |
| PdsSession.Publisher.InvalidateSession | packages/brain/src/pds/publisher.ts:199-202 | Both the cache and the login under way are forgotten; the login goes on |
| PdsSession.Publisher.PostAnswered | packages/brain/src/pds/publisher.ts:261-270 | Only 401 invalidates |
| PdsSession.StepKeepsInv | packages/brain/src/pds/publisher.ts:199-252 | Every event keeps the logins that callers no longer share at most as many as the invalidations |
| PdsSession.LoginsInFlight | packages/brain/src/pds/publisher.ts:199-252 | In every interleaving the logins in flight are at most one more than the invalidations so far |
| PdsSession.SingleFlight | packages/brain/src/pds/publisher.ts:208-224 | Without invalidation at most one login is in flight |
| PdsSession.BoundIsReached | packages/brain/src/pds/publisher.ts:199-224 | For every number of invalidations some run attains the bound |
| PdsSession.CachedIsFresh | packages/brain/src/pds/publisher.ts:212-216 | A session handed out of the cache has not expired and stems from a login that succeeded less than its time to live ago |
| PdsSession.CachedUntilExpiry | packages/brain/src/pds/publisher.ts:212-252 | A session that was logged in is served from the cache exactly until it expires, as long as there is no invalidation and no other login succeeds, whatever else happens |
| PdsSession.SharedUntilOver | packages/brain/src/pds/publisher.ts:217-224 | Who starts a login shares it with all callers without a session until a callback runs or the session is invalidated |
| PdsSession.OwnAfterwards | packages/brain/src/pds/publisher.ts:199-224 | After that the next caller without a session starts a login of its own |
| PdsSession.SharedIsNotOver | packages/brain/src/pds/publisher.ts:217-223 | A shared login is one that is still under way or just ending |
| PdsSession.InvalidationForcesLogin | packages/brain/src/pds/publisher.ts:195-252 | After an invalidation every session handed out, in every continuation, stems from a login begun after it, if and only if no login was in flight at that moment |
| PdsSession.EarlierIffInFlight | packages/brain/src/pds/publisher.ts:195-252 | A session from a login begun before an invalidation is handed out after it if and only if it is a cached one whose login was in flight at the invalidation |
| PdsSession.InFlightComesBack | packages/brain/src/pds/publisher.ts:195-252 | Each login in flight at an invalidation is handed out again if it succeeds next |
| PdsSession.InvalidatedLoginIsCached | packages/brain/src/pds/publisher.ts:199-252 | Such a run |
| ContactMatching.CollectTerms | packages/brain/src/contact/matcher.ts:40-51 | The nested loops collect names and aliases of the minimum length, contact by contact |
| ContactMatching.CollectAliases | packages/brain/src/contact/matcher.ts:46-50 | The inner loop collects the aliases of the minimum length |
| ContactMatching.TermsAre | packages/brain/src/contact/matcher.ts:40-51 | A term is looked for if and only if it is the name or an alias, of the minimum length, of a contact, with the kind that says which |
| ContactMatching.OccursMeans | packages/brain/src/contact/matcher.ts:62-66 | It occurs where it stands from one word boundary to another, in whatever case of letters |
| ContactMatching.NextIsFirst | packages/brain/src/contact/matcher.ts:66-68 | The scan skips no occurrence: the one found is the first from its position on |
| ContactMatching.ScannedOccur | packages/brain/src/contact/matcher.ts:66-68 | What a scan meets are occurrences, in order and disjoint |
| ContactMatching.ScannedCovers | packages/brain/src/contact/matcher.ts:66-68 | And every occurrence starts inside one of them |
| ContactMatching.ScanTerm | packages/brain/src/contact/matcher.ts:60-89 | One term's scan, which runs on to the end of the text, adds the first free occurrence if the contact has none yet, and nothing else |
| ContactMatching.MatchContacts | packages/brain/src/contact/matcher.ts:37-94 | The whole method returns the greedy choice over the terms, longest first, sorted by position |
| ContactMatching.ChosenExactly | packages/brain/src/contact/matcher.ts:59-89 | The choice goes through the terms in order; each adds nothing if its contact has a match or no scanned occurrence is clear of those chosen so far, and the first that is clear otherwise |
| ContactMatching.ScanTermOnce | packages/brain/src/contact/alias.ts:46-64 | The scan that skips contacts already seen and breaks at the first match adds the same |
| ContactMatching.MatchWithAliases | packages/brain/src/contact/alias.ts:21-67 | The second implementation returns the greedy choice over its terms in the order found |
| ContactMatching.MatchesAreSound | packages/brain/src/contact/matcher.ts:37-94 | Results are disjoint, sorted by start, one per contact at most, and each is a word-bounded occurrence of a term of its contact |
| ContactMatching.UnmatchedIsBlocked | packages/brain/src/contact/matcher.ts:53-89 | Every scanned occurrence of a name or alias, of the minimum length, of a contact without match overlaps a chosen match that is at least as long |
| ContactMatching.FoundWithAliases | packages/brain/src/contact/alias.ts:21-67 | The second implementation finds what the first finds and then goes on with the two-character terms |
| ContactMatching.Agreement | packages/brain/src/contact/alias.ts:21-67 | Both return the same pairs of contact and matched text, up to order, if and only if no two-character term of an unmatched contact occurs clear of all matches |
| ContactMatching.LongNamesAgree | packages/brain/src/contact/alias.ts:21-67 | In particular if no name or alias has exactly two characters |
| ContactMatching.Attribute | packages/brain/src/contact/alias.ts:73-98 | Any name or alias found decides, the first one found; a kinship word only if there is none, and then the first contact whose word occurs |
| ContactMatching.KinshipMeans | packages/brain/src/contact/alias.ts:80-87 | A kinship word occurs where it stands from one word boundary to another, in whatever case of letters, and an empty one nowhere |
| ChatThread.Threads.constructor | packages/brain/src/chat/thread.ts:86-96 | No threads in memory, an empty log |
| ChatThread.Threads.AddMessage | packages/brain/src/chat/thread.ts:86-112 | The message is appended in memory whatever the repository does, and to the log if that works |
| ChatThread.Threads.PersistMessage | packages/brain/src/chat/thread.ts:140-157 | A missing or failing repository leaves the log as it was |
| ChatThread.Threads.HydrateThread | packages/brain/src/chat/thread.ts:121-137 | A thread is read from the log if forced or empty in memory; it returns the number read, 0 if it does not read, and throws if reading fails |
| ChatThread.Threads.DeleteThread | packages/brain/src/chat/thread.ts:212-222 | The thread leaves memory in any case and the log if the repository works; the result says whether memory had it |
| ChatThread.AddKeepsCoherence | packages/brain/src/chat/thread.ts:86-112 | Adding to a thread that is the end of its log keeps it so if and only if the row is stored and no row of the thread is later than it |
| ChatThread.AddIsLocal | packages/brain/src/chat/thread.ts:86-112 | Adding to one thread changes neither memory nor log of another |
| ChatThread.StoringKeeps | packages/brain/src/chat/thread.ts:140-157 | Of a message only metadata and sources can change by being stored and read back, and only if they are there and empty |
| ChatThread.ListedRows | packages/core/src/chat/repository.ts:80-95 | Reading a thread lists exactly its rows, by time, those of the same time in the order in which they are stored |
| ChatThread.AppendedRows | packages/core/src/chat/repository.ts:63-79 | A row is stored at the end, and takes the place of one with its id |
| ChatThread.HydrateMakesEqual | packages/brain/src/chat/thread.ts:121-137 | A hydration with a working repository that is forced, or finds the thread empty, makes memory equal to the log; any other changes nothing |
| ChatThread.DeleteKeepsCoherence | packages/brain/src/chat/thread.ts:212-222 | Deleting and restarting keep every thread the end of its log, even if the repository fails; deletes that work empty both |
| ChatThread.RunIsCoherent | packages/brain/src/chat/thread.ts:86-222 | In every run of adds, hydrations, deletes and restarts with a working repository, fresh ids and a clock that does not go back, each thread in memory is a suffix of its log, up to empty metadata and sources |
| ChatThread.OwnRowsAreSubsequence | packages/brain/src/chat/thread.ts:140-157 | Whatever fails: the logged rows of the messages this process added are a subsequence of what it added |
| EventBatching.Batch.constructor | packages/brain/src/guardian/silence.ts:218 | No fingerprints |
| EventBatching.Batch.IsDuplicateEvent | packages/brain/src/guardian/silence.ts:235-245 | The answer compares with the last time seen, and the event is recorded in any case |
| EventBatching.Batch.PurgeExpiredFingerprints | packages/brain/src/guardian/silence.ts:253-263 | The loop removes exactly the entries at least a window old and counts them |
| EventBatching.PurgedKeeps | packages/brain/src/guardian/silence.ts:253-263 | A purge keeps exactly the entries that would make an event a duplicate at that time, as they are |
| EventBatching.RunsAreSimilar | packages/brain/src/guardian/silence.ts:235-263 | With and without the purges of a run, the maps differ only in entries that can matter no more |
| EventBatching.PurgingIsInvisible | packages/brain/src/guardian/silence.ts:235-263 | For nondecreasing times, purges anywhere in a run change none of its answers |
| EventBatching.DuplicateIff | packages/brain/src/guardian/silence.ts:235-245 | For nondecreasing times and purges anywhere: an event is a duplicate if and only if an earlier one with its fingerprint lies within the window |
| EventBatching.SameFingerprint | packages/brain/src/guardian/silence.ts:224-228 | Two pairs of source and type share a fingerprint if and only if they are equal or differ by text, set off by colons, that ends the one's source and begins the other's type |
| EventBatching.ColonFreeApart | packages/brain/src/guardian/silence.ts:224-228 | Without colons in sources the fingerprint identifies source and type |
| EventBatching.DuplicateOfGroup | packages/brain/src/guardian/silence.ts:224-245 | Then, in every run with nondecreasing times: an event is a duplicate if and only if one of the same source and type came before it within the window |
| EventBatching.FingerprintsCollide | packages/brain/src/guardian/silence.ts:224-228 | Two pairs that do share one |
| Silence.Guardian.constructor | packages/brain/src/guardian/silence.ts:115-168 | No overrides, no counts, no mode; quiet hours from 22 to 7, off |
| Silence.Guardian.RecordEngagementEvent | packages/brain/src/guardian/silence.ts:118-122 | The source's count goes up by one, and no other |
| Silence.Guardian.BeginClassification | packages/brain/src/guardian/silence.ts:357-389 | An override decides; otherwise an engagement result is counted and, from the threshold on, decides |
| Silence.Guardian.FinishClassification | packages/brain/src/guardian/silence.ts:391-443 | The model's refinement and then the first downgrade that applies: mode, quiet hours, age |
| Silence.Guardian.SetUserOverride | packages/brain/src/guardian/silence.ts:142-144 | The source's override, and no other, changes |
| Silence.Guardian.RemoveUserOverride | packages/brain/src/guardian/silence.ts:147-149 | The source's override, and no other, goes |
| Silence.Guardian.SetDND | packages/brain/src/guardian/silence.ts:88-95 | The mode is what it is set to |
| Silence.Guardian.EnableQuietHours | packages/brain/src/guardian/silence.ts:174-178 | Hours not given are kept |
| Silence.RulesDecide | packages/brain/src/guardian/silence.ts:457-555 | What the rules decide: fiduciary if and only if the source, in any case of letters, is one of four, or the text is urgent and the source, in any case, none of four marketing sources; otherwise solicited if and only if the type is one of two; with confidence 0.95 for a trusted source, 0.85 for urgent text, 0.90 for a known type and 0.50 for any other |
| Silence.ModelDecidesWhen | packages/brain/src/guardian/silence.ts:285-346 | The model's answer replaces the result of the rules if and only if no rule is sure, the answer is valid, with a confidence from 0.5 to 1, and it does not make a marketing event fiduciary |
| Silence.QuietHoursRunOn | packages/brain/src/guardian/silence.ts:186-196 | On the clock, quiet hours run from their start up to, not including, their end, past midnight if need be, and never if both are the same |
| Silence.StaleWhen | packages/brain/src/guardian/silence.ts:419-427 | Content with a time, in seconds or in milliseconds, is stale from one day of age on, and never without a time |
| Silence.DowngradedWhen | packages/brain/src/guardian/silence.ts:394-443 | Solicited becomes engagement while it is quiet or if it is stale; the confidence is multiplied by 0.8, 0.5 or, for stale engagement, 0.6; nothing else changes |
| Silence.DecidedAtOnce | packages/brain/src/guardian/silence.ts:357-389 | An override is returned with confidence 1, an escalation as fiduciary with confidence 0.8, whatever the model, the mode, the hour and the age |
| Silence.DecidedInSteps | packages/brain/src/guardian/silence.ts:391-443 | Otherwise the rules, the model and one downgrade decide, in this order |
| Silence.FiduciaryStays | packages/brain/src/guardian/silence.ts:357-443 | Without an override, an event of deterministic tier 1 is returned unchanged under any model answer, mode, hour and age |
| Silence.QuietOrOverridden | packages/brain/src/guardian/silence.ts:394-412 | While the mode or quiet hours hold, an event is returned as tier 2 if and only if a user's override made it so |
| Silence.OverrideBeatsQuiet | packages/brain/src/guardian/silence.ts:362-372 | A user's override to tier 2 is returned even in do-not-disturb mode |
| Silence.ModelIsBounded | packages/brain/src/guardian/silence.ts:285-346 | The model changes a result only below 0.85, with a confidence from 0.5 to 1, never a fiduciary one, and never makes a marketing source fiduciary |
| Silence.MarketingIsNotFiduciary | packages/brain/src/guardian/silence.ts:36-47 | No marketing source, in any case of letters, is a fiduciary source |
| Silence.MarketingIffEscalated | packages/brain/src/guardian/silence.ts:374-389 | Without an override, a marketing event is tier 1 if and only if the rules find tier 3 and it brings its source's count to the threshold |
| Silence.CountIsHistory | packages/brain/src/guardian/silence.ts:118-122 | The count of a source is the number of its override-free engagement events so far |
| Silence.MarketingOverRuns | packages/brain/src/guardian/silence.ts:357-389 | In every run, a marketing event without override is tier 1 if and only if the rules find tier 3 and at least ESCALATION_THRESHOLD such events of its source, itself included, have come |
| Silence.EscalationStays | packages/brain/src/guardian/silence.ts:374-389 | Counts never go down: once a source has escalated, each of its counted events is tier 1 |
| CommandParser.RoundTrip | packages/brain/src/chat/command_parser.ts:61-232 | Every valid command, rendered and parsed, comes back with intent, payload, explicitness, capability and task id |
| CommandParser.ParseIsValid | packages/brain/src/chat/command_parser.ts:61-232 | Every text parses to a valid command |
| CommandParser.ReparseIsStable | packages/brain/src/chat/command_parser.ts:61-232 | Rendering what any text parses to and parsing that changes nothing |
| CommandParser.RenderIsInjective | packages/brain/src/chat/command_parser.ts:61-232 | Different commands are rendered differently |
| CommandParser.NoCommandIsChat | packages/brain/src/chat/command_parser.ts:84-112 | A slash text is chat, whole and not explicit, if and only if its name is unknown or missing, or a service name lacks a usable token |
| CommandParser.PlainCommands | packages/brain/src/chat/command_parser.ts:84-112 | A slash and a word, in any case of letters: remember, ask and search keep the payload, help drops it, and any name that is no command is chat, as it was typed |
| CommandParser.ServiceCommands | packages/brain/src/chat/command_parser.ts:124-221 | The three service commands take a first word that looks like an id, for a capability starting with a letter, and keep or, for an approval, drop what follows; otherwise the text is chat, as it was typed |
| CommandParser.ServiceAlone | packages/brain/src/chat/command_parser.ts:124-130 | Without a first word a service command is chat |
| CommandParser.OtherText | packages/brain/src/chat/command_parser.ts:70-78 | Other text asks if it ends with a question mark or its first word, in any case of letters, is one of 21, and is chat otherwise |
| CommandParser.OuterSpace | packages/brain/src/chat/command_parser.ts:61-65 | White space around a text makes no difference to the command, and nothing else is chat without payload |
| CommandParser.OriginalText | packages/brain/src/chat/command_parser.ts:61-79 | The original text is kept, but that of a slash text is trimmed |
| CommandParser.ParseName | packages/brain/src/chat/command_parser.ts:84-93 | A slash, a name and a trimmed payload are taken apart into exactly these |
| ActionRisk.Policy.constructor | packages/brain/src/guardian/action_risk.ts:141-150 | No proposals, an empty trail |
| ActionRisk.Proposal.constructor | packages/brain/src/guardian/action_risk.ts:192-203 | A proposal is pending and expires 30 minutes after it is made |
| ActionRisk.Policy.RecordAudit | packages/brain/src/guardian/action_risk.ts:302-315 | One entry is appended |
| ActionRisk.Policy.CreateProposal | packages/brain/src/guardian/action_risk.ts:182-209 | A fresh proposal is stored under its id, and its creation is recorded; the others stay as they are |
| ActionRisk.Policy.ApproveProposal | packages/brain/src/guardian/action_risk.ts:216-232 | Only a pending proposal that has not expired is approved; a pending one found expired is recorded so; all others stay |
| ActionRisk.Policy.RejectProposal | packages/brain/src/guardian/action_risk.ts:237-245 | Only a pending proposal is rejected, whatever the time |
| ActionRisk.Policy.QueryApproved | packages/brain/src/guardian/action_risk.ts:252-265 | True exactly for an approved proposal not yet expired; an approved one found expired is recorded so |
| ActionRisk.Policy.ListPending | packages/brain/src/guardian/action_risk.ts:273-284 | The loop collects the pending proposals not yet expired, in the order they were made |
| ActionRisk.AuditReplays | packages/brain/src/guardian/action_risk.ts:182-265 | In every run with fresh ids each proposal's trail is one of five histories, and its last entry is the proposal's status |
| ActionRisk.ApprovedMeans | packages/brain/src/guardian/action_risk.ts:252-265 | A proposal found approved was approved not later than it expires, is asked about not later than that, and its trail is just pending and approved |
| ActionRisk.CreatedStays | packages/brain/src/guardian/action_risk.ts:182-209 | What a proposal is for, its risk, and that it expires 30 minutes after it is made, never changes |
| ActionRisk.ApprovedExactly | packages/brain/src/guardian/action_risk.ts:216-265 | In every run with fresh ids a proposal has the status of an approved one if and only if the first who approves or rejects it approves it within 30 minutes of its creation, and no one has asked about it later than that since |
| ActionRisk.FoundApproved | packages/brain/src/guardian/action_risk.ts:252-265 | A query finds it approved exactly then, if it comes within 30 minutes itself |
| ActionRisk.StepIsAudited | packages/brain/src/guardian/action_risk.ts:302-315 | Each creation and each change of a status, and nothing else, is recorded, with action, risk, new status and the time on the clock |
| ActionRisk.ResolvedStays | packages/brain/src/guardian/action_risk.ts:216-265 | Rejected and expired proposals never change again |
| ActionRisk.ExpiredIsFinal | packages/brain/src/guardian/action_risk.ts:216-265 | Once recorded as expired, a proposal is never found approved and can never be approved or rejected, for any time given |
| ActionRisk.ListedIffApprovable | packages/brain/src/guardian/action_risk.ts:273-284 | In every run, a proposal is listed if and only if approving it at that time would succeed |
| ActionRisk.FirstDecides | packages/brain/src/guardian/action_risk.ts:216-245 | In every run: a pending proposal stays pending exactly while neither an approval nor a rejection of it comes, and ends as rejected if and only if a rejection comes first, whatever the times |
| ActionRisk.RejectIgnoresExpiry | packages/brain/src/guardian/action_risk.ts:237-245 | A pending proposal past its time is rejected by a rejection and recorded as expired by an approval |
| Briefing.DeduplicateByTitle | packages/brain/src/briefing/assembly.ts:215-235 | The loop over the sorted items with its set of seen titles computes the specified selection |
| Briefing.KeptWithKey | packages/brain/src/briefing/assembly.ts:222-232 | Of the items with one title exactly the first is kept, of those without title all, in order |
| Briefing.OnePerTitle | packages/brain/src/briefing/assembly.ts:215-235 | For each title, lower-cased and trimmed, exactly one item is kept, and none of that title is newer |
| Briefing.UntitledAreKept | packages/brain/src/briefing/assembly.ts:224-227 | Every item with an empty title is kept as often as it occurs |
| Briefing.SortedBySource | packages/brain/src/briefing/assembly.ts:200-207 | Without inherited names among the sources every result the language allows is a permutation ordered by priority, then newest first |
| Briefing.RanksDecide | packages/brain/src/briefing/assembly.ts:173-207 | Finance counts more than health, health more than the calendar, that more than messages, those more than feeds, feeds more than other sources, and these more than promotion; sources of one group count the same, in any case of letters |
| Briefing.InheritedHaveNoRank | packages/brain/src/briefing/assembly.ts:202-204 | Every source has such a rank but two, constructor and __proto__ |
| Briefing.ConsistentWhen | packages/brain/src/briefing/assembly.ts:201-206 | The comparator is consistent on given items, so that the language fixes the result of the sort, if and only if all priorities are numbers, or all are equal, or no two items have an order |
| Briefing.InheritedNameBlocks | packages/brain/src/briefing/assembly.ts:202-204 | With an inherited name, such as constructor, beside two items that have an order, the comparator is inconsistent and the language allows a result that is out of order |
| Briefing.SortsWhen | packages/brain/src/briefing/assembly.ts:200-207 | Every result that the language allows of the sort is in order if and only if no source bears an inherited name or the others have no order to keep |
| Briefing.AssembleBriefing | packages/brain/src/briefing/assembly.ts:82-132 | For every implementation of the sort: the briefing holds the sections of the deduplicated items, and is null if there are none |
| Briefing.SectionsPartition | packages/brain/src/briefing/assembly.ts:111-122 | The four sections hold exactly the kept items, each in its section, and their sizes add up to the total |
| Briefing.SectionsKeepOrder | packages/brain/src/briefing/assembly.ts:111-117 | Reminders, approvals and memories are the deduplicated items of their kind, in the same order |
| Briefing.NewestFirst | packages/brain/src/briefing/assembly.ts:219-231 | The deduplicated items come newest first, and are picked from the items so sorted, in which those of the same time keep their order |
| Briefing.NothingToReport | packages/brain/src/briefing/assembly.ts:124-125 | There is no briefing if and only if no provider yields an item |
| Briefing.EngagementIsOrdered | packages/brain/src/briefing/assembly.ts:111-120 | Every implementation of the sort puts the engagement section in order by priority and recency if and only if no kept engagement item bears an inherited name or the others have no order to keep |

## Left out

- Scrubbing.RoundTrip: is stated for texts in which no held token with a number of 10^9 or more occurs, and in which the first tier finds fewer than 10^9 matches of each type; `Tokens.PhoneTouchesBigTokens` shows that second-tier matches can fall into larger tokens.
- Scrubbing.SecondScrub: is stated for the same texts, and its proviso is sufficient, not necessary: other values can happen to spell the same text.
- Scrubbing.FreshRoundTrip: is stated for texts of fewer than 10^9 characters, for the same reason.
- Scrubbing.TokenFreeRoundTrip: is stated for texts in which the first tier finds fewer than 10^9 matches of each type.
- SyntheticData.Apply: on matches that overlap, which the detectors never return, only the number of mappings is stated.
- GuardScan.ScanResponse: violations carry no detail and no matched text, and a model's prompt and the repair of its JSON are not modelled.
- GuardScan.StrippedIsClean: the detectors are predicates on text, and that those whose sentences are trimmed ignore white space at the ends is assumed.
- GuardScan.ParseGuardAnswer: the text of the answer and its parsing are a parameter, and so is whether a field is missing or has another type.
- CircuitBreakers.CircuitBreaker.Execute: says what a call does during which no other call ends; overlapping calls are the runs of admissions and completions that the theorems are about.
- RequestRetry.RequestWithRetry: headers, signing, the request id, backoff times and the parsing of the body are not modelled, only whether each step fails.
- NodeBootstrap.Bootstrap.BootSucceeds: what booting and disposing do inside, the degradations and the state shown by the hook are not modelled; toggling `enabled` is an unmount and a mount.
- ChatThread.Threads.AddMessage: subscribers are not modelled, nor the repository's limit argument and JSON columns; the repository is a field of the store, and reinstalling another one is not modelled.
- ChatThread.Threads.DeleteThread: the removal of the thread's subscribers is not modelled.
- Silence.Guardian.FinishClassification: reasons and the staleness factor are not modelled, nor the conversion of fields with `String` and `Number`; the timestamp is a number.
- ActionRisk.Policy.CreateProposal: the table of `assessRisk` and the approval threshold are not modelled; a proposal carries the level.
- Briefing.AssembleBriefing: providers and the reminder service are parameters; `isBriefingTime` and `setBriefingHour` are left out.
- PdsSession.Publisher.PostAnswered: records, headers, error texts and the timeout are not modelled.
- ContactMatching.MatchWithAliases: the matched text is given by its position; `containsContact`, `overrideStagingResponsibility` and `generateRecallHints` are left out.
- EntityVault.EntityVault.Rehydrate: replacement templates such as `$&` cannot occur, because values hold no dollar sign, and are not modelled; `entries`, `isEmpty` and `size` are left out.
- Detection.SecondTierReplaces: telephone numbers, cards, street addresses and the other kinds whose expressions leave parts out are covered in terms of their expressions only, by `Scrubbing.FirstDetects` and `Scrubbing.SecondDetects`.
- Regex.Exec: only what the two tables use of the language of expressions is modelled; there are no captures and no flags.
- PiiPatterns.Tier2IsSafe: scores, the list of safe entity types and the detectors for one region alone are left out.
- Reading functions that return a field, reset helpers, `CircuitBreaker.reset` and `getStatus`: they would add easy members only.
- Screens, storage, cryptography, transport and model prompts are not part of this model.
