# TOON encoder, citation extraction and CORS origin rule, modelled in Dafny

This project models three pieces of an Express/TypeScript backend for an
Islamic assistant:

- **The TOON encoder** (`src/utils/toon.util.ts`). It turns a JSON value into
  TOON ("Token-Oriented Object Notation") text for a language-model prompt. It
  writes two spaces of indentation per level. It quotes strings and keys by two
  different rules. It renders arrays of objects that share one key set as a
  table: a `{f1 f2} [N]` header plus one row per element. Modules `Toon`
  (definitions) and `ToonLaws` (properties). `JsonString` models
  `JSON.stringify` on a string and gives a decoder proved to invert it.
  `KeySort` models `Object.keys(o).sort()`. `Text` holds the JavaScript text
  primitives the encoder uses.
- **Citation extraction and the message rules of the chat service**
  (`src/features/chat/service/chat.service.ts`). `extractSources` scans an
  assistant reply for `Quran c:v[-w]` citations and then for hadith citations
  of six collections. It keeps the first source of each reference string.
  Module `ChatSources` holds the regular-expression matching as functions, the
  two `exec` loops as a method, and a specification the method is proved
  against. Module `CitationScan` proves that matches of one expression never
  overlap, so every citation in a reply is extracted under its own reference.
  Module `ChatService` models `sendMessage` on a `Conversation`
  object: the first message sets the title, the prompt uses the last six
  messages, and the reply is stored with its sources.
- **The CORS origin rule** (`src/config/cors.config.ts`). No origin is
  allowed. A `*` entry allows every origin. Otherwise an origin is allowed
  when it is in the configured list. Module `Cors`.

The model follows the code where the code and the format's design disagree:

- String values are not quoted when they equal `null`, `true`, `false` or
  `undefined`. Only keys and table cells go through `needsQuoting`.
- The tabular test looks only at key sets, not at the cells. A nested value
  in a cell is flattened with `String(val)`.
- A `null` cell and the string `"-"` both print `-`.
- Header field names are not quoted.
- There is no TOON decoder (`fromToon` is a `JSON.parse` fallback). So no
  round trip of the encoding is claimed. Lemmas instead exhibit inputs whose
  encodings collide.
- A bracketed array under an object key has its `[` on a line of its own with
  no indentation. Only its items and its `]` are indented.
- A reply that cites anything is never saved. `extractSources` gives every
  source an empty `text`, but the schema of a source declares `text` a
  required string, and Mongoose's `required` rejects the empty string. So
  `chat.save()` fails, and `sendMessage` ends in its `Failed to generate
  response` error. An empty reply fails the same way, because `content` is
  required too.

## Model

| member | source | states |
|---|---|---|
| Toon.ToToon | src/utils/toon.util.ts:12-19 | `toToon` renders the value at depth 0, so the text is non-empty and starts at column 0, never with whitespace |
| Toon.ConvertToToon | src/utils/toon.util.ts:24-88 | `convertToToon`, case by case as the code has it; no value renders as empty text (its layout is stated by the `ToonLaws` rows) |
| Toon.IsUniformObjectArray | src/utils/toon.util.ts:93-106 | definition of `isUniformObjectArray`: non-empty, and every element an object whose sorted keys equal the first element's (characterised by `ToonLaws.UniformIffSameKeyMultisets`) |
| Toon.FormatTabularArray | src/utils/toon.util.ts:111-140 | definition of `formatTabularArray`: header from the first element's keys, then one row per element (stated by `ToonLaws.TabularLayout`) |
| Toon.NeedsQuoting | src/utils/toon.util.ts:145-155 | definition of `needsQuoting`: empty, whitespace or a structural character, a leading digit, or one of four reserved words (compared with the value rule by `ToonLaws.NeedsQuotingIsValueRuleOrReserved`) |
| ToonLaws.ScalarLiterals | src/utils/toon.util.ts:27-29 | `null` renders as `null` and booleans as `true`/`false` at every depth; a non-negative integer renders as decimal digits that read back to the number |
| ToonLaws.StringValueRendering | src/utils/toon.util.ts:35-41 | a string value is written verbatim exactly when it is non-empty, has no whitespace or `{}[]:,=` and does not start with a digit; otherwise it is a JSON string literal that decodes back to the string |
| ToonLaws.VerbatimStringIsBareWord | src/utils/toon.util.ts:37-40 | a string written verbatim is non-empty, does not start with a digit, and holds no whitespace or structural character |
| ToonLaws.NeedsQuotingIsValueRuleOrReserved | src/utils/toon.util.ts:145-155 | `needsQuoting` holds exactly when the string-value rule holds or the string is `null`, `true`, `false` or `undefined`; the two rules differ exactly on those four words |
| ToonLaws.ReservedWordValuesCollide | src/utils/toon.util.ts:27-45 | the strings `"null"`, `"true"`, `"false"` print exactly like null, true and false, and `"undefined"` prints bare |
| ToonLaws.NegativeNumberStringCollides | src/utils/toon.util.ts:37-44 | the string `"-5"` is not quoted and prints exactly like the number -5 |
| ToonLaws.EmptyStringCollides | src/utils/toon.util.ts:37-38 | the empty string and the two-character string `""` print the same text |
| ToonLaws.KeyTextRendering | src/utils/toon.util.ts:73 | a key is written bare exactly when `needsQuoting` is false, otherwise as a JSON literal that decodes to the key; a written key never holds a newline |
| ToonLaws.ScalarIsOneLine | src/utils/toon.util.ts:27-45 | a scalar renders as one non-empty line without a newline, independent of the depth |
| ToonLaws.EmptyContainers | src/utils/toon.util.ts:47-69 | an empty array renders exactly as `[]` and an empty object exactly as `{}` at every depth |
| ToonLaws.ArrayLayoutChoice | src/utils/toon.util.ts:52-63 | a non-empty array's text starts with `[` exactly when it is not uniform; a uniform one starts with the indent and `{` of its header |
| ToonLaws.BracketedLayout | src/utils/toon.util.ts:57-63 | a non-uniform array is `[`, one line per element in order at the indent plus two spaces holding the element rendered one level deeper, then the indent and `]` |
| ToonLaws.ScalarArrayLines | src/utils/toon.util.ts:57-63 | an array of scalars splits into exactly N+2 lines: `[`, one indented line per element in order, the indented `]` |
| ToonLaws.ObjectLayout | src/utils/toon.util.ts:66-85 | a non-empty object is one entry per key in entry order joined by newlines: `indent key: scalar`, or `indent key:`, a newline and the value rendered one level deeper for arrays and objects, empty ones included |
| ToonLaws.ScalarObjectLines | src/utils/toon.util.ts:72-84 | an object of scalars splits into exactly one `key: value` line per entry, in entry order |
| ToonLaws.BareWord | src/utils/toon.util.ts:37-40 | a non-empty, non-reserved word without whitespace, structure or a leading digit is written as itself as a key, a value and a cell |
| ToonLaws.SingleEntry | src/utils/toon.util.ts:72-82 | a one-entry object renders as its key line, with the value after `: ` for a scalar or after `:` and a newline for a container |
| ToonLaws.NestedArrayText | src/utils/toon.util.ts:58-78 | a bracketed array under a key is the key line, a `[` line, the element lines two levels deeper and the `]` one level deeper |
| ToonLaws.NestedArrayBracketUnindented | src/utils/toon.util.ts:63-78 | under a key, a bracketed array's first two lines are the key line and a `[` at column 0 |
| ToonLaws.EntryLinesIndented | src/utils/toon.util.ts:78-81 | every entry line of an object starts with the object's indentation |
| ToonLaws.ObjectInArrayDoubleIndent | src/utils/toon.util.ts:58-60 | an object inside a bracketed array has its first entry indented by the item prefix plus its own indentation: twice the depth plus two levels |
| ToonLaws.UniformIffSameKeyMultisets | src/utils/toon.util.ts:93-106 | the tabular test holds exactly when the array is non-empty and every element is an object whose keys equal the first element's keys counted with multiplicity; a scalar or array element makes it false |
| ToonLaws.UniformIffSameKeySets | src/utils/toon.util.ts:93-106 | for objects without repeated keys the tabular test is equality of key sets with the first element |
| ToonLaws.UniformRowsHoldAllFields | src/utils/toon.util.ts:117-128 | in a uniform array every element holds every header field, so no cell is `undefined` |
| ToonLaws.TabularLayout | src/utils/toon.util.ts:111-139 | tabular output is the header `{k1 ... kn} [N]` with the first element's keys in its own order and N the length, then one row per element at two more spaces, holding one cell per header field in header order |
| ToonLaws.TabularLineCount | src/utils/toon.util.ts:121-139 | with one-line cells and field names, tabular output is exactly the header line and N row lines |
| ToonLaws.CellOneLine | src/utils/toon.util.ts:125-135 | a cell holds no newline unless it is an array flattened with a newline inside |
| ToonLaws.JsStringOneLine | src/utils/toon.util.ts:134 | `String(val)` holds no newline when no string inside the value does |
| ToonLaws.NullAndDashCellsCollide | src/utils/toon.util.ts:127-132 | a table with a `null` cell and one with the string `"-"` there render identically |
| ToonLaws.HeaderFieldNamesUnquoted | src/utils/toon.util.ts:121 | field names are not quoted, so one field `a b` and two fields `a`, `b` give the same header |
| ToonLaws.OneRowTable | src/utils/toon.util.ts:93-139 | an array of a single object is always tabular: a header with row count 1 and one row |
| ToonLaws.NestedObjectCellFlattened | src/utils/toon.util.ts:134 | a nested object in a cell does not stop tabular output and prints as `[object Object]` |
| ToonLaws.StringListCell | src/utils/toon.util.ts:134 | an array of one string in a cell prints as that string, unquoted |
| ToonLaws.NestedNewlineSplitsRow | src/utils/toon.util.ts:134-136 | a newline inside a string in an array cell is emitted raw and splits the row into two lines |
| ToonLaws.PeopleTable | src/utils/toon.util.ts:111-139 | two objects with keys `id` and `name` form the table `{id name} [2]` with rows `id name` |
| ToonLaws.CountAndItems | src/utils/toon.util.ts:72-84 | `{count: 2, items: t}` for an array `t` renders as `count: 2`, `items:` and `t` one level deeper |
| ToonLaws.ScenarioEncoding | src/utils/toon.util.ts:12-18 | `toToon({count: 2, items: [{id: 1, name: "Ali"}, {id: 2, name: "Omar"}]})` is the five lines `count: 2`, `items:`, `  {id name} [2]`, `    1 Ali`, `    2 Omar` |
| Toon.Lookup | src/utils/toon.util.ts:126 | `item[field]` is `undefined` exactly when the object has no entry with that key |
| Toon.LookupFindsFirstEntry | src/utils/toon.util.ts:126 | when `item[field]` is defined it is the value of the first entry with that key: no earlier entry has the key |
| KeySort.SortStrings | src/utils/toon.util.ts:98 | `Object.keys(o).sort()` returns a rearrangement of the keys: the same keys with the same multiplicities |
| KeySort.SortStringsSorted | src/utils/toon.util.ts:98 | the model of `sort()` returns a sorted list |
| KeySort.SameSortedIffSameMultiset | src/utils/toon.util.ts:98-104 | two key lists sort to the same list exactly when they hold the same keys with the same multiplicities |
| KeySort.DistinctSameMultisetIffSameSet | src/utils/toon.util.ts:103-104 | for lists without repeated keys, same multiset of keys means same set of keys |
| JsonString.Quote | src/utils/toon.util.ts:38 | `JSON.stringify` of a string is a literal between two double quotes |
| JsonString.QuoteRoundTrip | src/utils/toon.util.ts:38 | the JSON literal `JSON.stringify` writes for a string decodes back to that string |
| JsonString.QuoteInjective | src/utils/toon.util.ts:38 | two different strings never get the same JSON literal |
| JsonString.QuoteHasNoControl | src/utils/toon.util.ts:38 | a JSON literal of a string holds no control character, in particular no newline |
| Text.NatToStringRoundTrip | src/utils/toon.util.ts:121 | the decimal text of a row count reads back to the count |
| ChatSources.NumbersAt | src/features/chat/service/chat.service.ts:15 | `\s+(\d+):(\d+)` at a position, greedy: a match ends where no further digit follows |
| ChatSources.RunEnd | src/features/chat/service/chat.service.ts:15 | a greedy `\s+` or `\d+` run stops at the first character outside its class |
| ChatSources.NumbersAtSound | src/features/chat/service/chat.service.ts:15 | what `\s+(\d+):(\d+)` matches is whitespace, digits, a colon and digits, and is present in the text there |
| ChatSources.NumbersAtComplete | src/features/chat/service/chat.service.ts:15 | any whitespace run followed by `digits:digits` is matched, with the same spacing and first number |
| ChatSources.RangeAt | src/features/chat/service/chat.service.ts:15 | the optional `-(\d+)` is taken exactly when a `-` and a digit follow the verse |
| ChatSources.QuranAt | src/features/chat/service/chat.service.ts:15 | the Quran expression at a position: a match starts there and ends within the text |
| ChatSources.QuranAtSound | src/features/chat/service/chat.service.ts:15 | a Quran match is `Quran` in any letter case, whitespace, two digit strings and an optional digit range end |
| ChatSources.QuranAtComplete | src/features/chat/service/chat.service.ts:15 | `Quran` in any letter case followed by a spaced `c:v` is matched at that position with chapter `c` |
| ChatSources.PhraseEnd | src/features/chat/service/chat.service.ts:37 | the end of a collection phrase at a position: its first word matches there, case-insensitively, and the phrase ends within the text |
| ChatSources.PhraseEndComplete | src/features/chat/service/chat.service.ts:37 | every spelling of a phrase, each word in any letter case and the words separated by whitespace runs, is matched, ending where the spelling ends |
| ChatSources.Slug | src/features/chat/service/chat.service.ts:48 | on the text of a matched collection name (ASCII letters, `-`, `'` and whitespace), `toLowerCase().replace(/\s+/g, '-')` leaves no whitespace and does not lengthen the text |
| ChatSources.PhraseSlug | src/features/chat/service/chat.service.ts:48 | however a collection name is spelt and spaced, its `collectionName` is its words lower-cased and joined by `-` |
| ChatSources.AlternativeSound | src/features/chat/service/chat.service.ts:37 | a hadith match names one of the six collections, spelt case-insensitively, with the slug of that collection and a spaced `b:h` |
| ChatSources.FirstMatch | src/features/chat/service/chat.service.ts:37 | an alternation takes the first branch, left to right, that matches, and matches nothing only when no branch does |
| ChatSources.HadithFrom | src/features/chat/service/chat.service.ts:37 | the hadith expression matches what one of the six alternatives matches at the position, every earlier alternative fails there, and it matches nothing only when all six fail |
| ChatSources.HadithAtComplete | src/features/chat/service/chat.service.ts:37 | any spelling of one of the six collection names followed by a spaced `b:h` is matched at that position, by that alternative or an earlier one |
| ChatSources.MatchAtOccurs | src/features/chat/service/chat.service.ts:19-38 | the text of every match is present in the reply at the match's position |
| ChatSources.Find | src/features/chat/service/chat.service.ts:19 | one `exec` call returns a match starting at or after `lastIndex` |
| ChatSources.FindLeftmost | src/features/chat/service/chat.service.ts:19 | `exec` returns the leftmost match: nothing matches between `lastIndex` and the match found |
| ChatSources.FindComplete | src/features/chat/service/chat.service.ts:38 | when the pattern matches at a position, `exec` from any earlier `lastIndex` finds a match no later than it |
| ChatSources.SourceOf | src/features/chat/service/chat.service.ts:24-51 | every source has `text` empty and type `quran` exactly for a Quran match |
| ChatSources.QuranSpellingsShareReference | src/features/chat/service/chat.service.ts:20-31 | a Quran reference is `Quran c:v` whatever the spelling of `Quran`, the spacing or the range end, with the same metadata |
| ChatSources.HadithSpellingsKeptApart | src/features/chat/service/chat.service.ts:39-48 | two spellings of one collection give two different references with the same metadata |
| ChatSources.BukhariSpellings | src/features/chat/service/chat.service.ts:48 | `Sahih Bukhari` and `sahih  bukhari` both get `collectionName` `sahih-bukhari` |
| ChatSources.SourcesFrom | src/features/chat/service/chat.service.ts:19-53 | definition of the sources one `exec` loop visits from `lastIndex` on, repeats included (stated by `ChatSources.SourcesFromMatched` and `ChatSources.SourcesFromCited`) |
| ChatSources.Dedup | src/features/chat/service/chat.service.ts:17-41 | definition of the `seen` filter: a source is kept when its reference is neither in `seen` nor on an earlier kept source (stated by `ChatSources.DedupSound` and `ChatSources.DedupIsFirstOccurrences`) |
| ChatSources.ExtractedSources | src/features/chat/service/chat.service.ts:11-56 | definition of `extractSources`: the filtered Quran sources then hadith sources (stated by `ChatSources.ExtractSources` and the `ExtractedSources` rows) |
| ChatSources.DedupSound | src/features/chat/service/chat.service.ts:17-41 | the `seen` filter keeps only sources of its input, none whose reference was seen, and no reference twice |
| ChatSources.DedupIsFirstOccurrences | src/features/chat/service/chat.service.ts:21-22 | the `seen` filter keeps exactly the first source of each reference, in order |
| ChatSources.ExtractSources | src/features/chat/service/chat.service.ts:11-56 | the two `exec` loops with a shared `seen` set return the filtered Quran-then-hadith sources, with no reference twice |
| ChatSources.SourcesFromMatched | src/features/chat/service/chat.service.ts:19-38 | every source a loop sees is the source of its pattern's match at some position of the reply |
| ChatSources.SourcesFromCited | src/features/chat/service/chat.service.ts:19-53 | every source a loop sees has its pattern's type and comes from a citation whose numbers are digit strings and, for a hadith, whose name starts with `S` or `s` |
| ChatSources.SourceOfInjective | src/features/chat/service/chat.service.ts:20-39 | two citations with the same reference give the same source |
| ChatSources.ExtractedSourcesSound | src/features/chat/service/chat.service.ts:11-56 | every extracted source is one the loops saw, and no two extracted sources share a reference |
| ChatSources.ExtractedSourcesComplete | src/features/chat/service/chat.service.ts:11-56 | every source the loops see is extracted: the filter drops only repeats of an identical source |
| ChatSources.QuranBeforeHadith | src/features/chat/service/chat.service.ts:19-53 | all Quran sources come before all hadith sources, and each kind is filtered on its own |
| ChatSources.QuranCitationExtracted | src/features/chat/service/chat.service.ts:15-33 | a reply that cites the Quran anywhere yields at least one Quran source (the exact reference is `CitationScan.QuranCitationReferenced`) |
| ChatSources.HadithCitationExtracted | src/features/chat/service/chat.service.ts:36-53 | a reply that cites one of the six collections anywhere, in any letter case and spacing, yields at least one hadith source (the exact reference is `CitationScan.HadithCitationReferenced`) |
| CitationScan.MatchLead | src/features/chat/service/chat.service.ts:15-37 | every match of `quranPattern` starts with `q` and every match of `hadithPattern` with `s` followed by `u` or `ah`, in any letter case |
| CitationScan.QuranInterior | src/features/chat/service/chat.service.ts:15 | no position strictly inside a `Quran c:v[-w]` match can start a `q` |
| CitationScan.CollectionsClear | src/features/chat/service/chat.service.ts:37 | after its first letter, no collection name of the alternation holds an `s` followed by `u` or `ah` |
| CitationScan.HadithInterior | src/features/chat/service/chat.service.ts:37 | no position strictly inside a hadith match can start a hadith match |
| CitationScan.NoOverlap | src/features/chat/service/chat.service.ts:19-38 | two matches of one expression never overlap: a match ends at or before the start of any later match |
| CitationScan.MatchVisited | src/features/chat/service/chat.service.ts:19-38 | from any `lastIndex` at or before a match, the `exec` loop reaches that match and sees its source |
| CitationScan.NumbersAtExact | src/features/chat/service/chat.service.ts:15-37 | `(\d+):(\d+)` captures exactly the digit runs written when the second run is not followed by a digit |
| CitationScan.AlternativesExclusive | src/features/chat/service/chat.service.ts:37 | at one position at most one collection alternative matches |
| CitationScan.QuranCitationReferenced | src/features/chat/service/chat.service.ts:15-33 | a reply that writes `Quran c:v` anywhere (in any case and spacing, with maximal digit runs) yields the source with reference `Quran c:v`, chapter `c` and verse `v` |
| CitationScan.HadithCitationReferenced | src/features/chat/service/chat.service.ts:36-53 | a reply that writes a collection name anywhere followed by `b:h` (maximal digit runs) yields the source with reference `<name as written> b:h`, the name's slug, book `b` and hadith `h` |
| ChatService.Title | src/features/chat/service/chat.service.ts:140-141 | the title is the message when it has at most 50 characters, otherwise its first 50 characters followed by `...`; it is never longer than 53 |
| ChatService.RecentMessages | src/features/chat/service/chat.service.ts:145 | the context window is the last six messages in their order, or all of them when there are fewer |
| ChatService.RecentMessagesSlide | src/features/chat/service/chat.service.ts:145 | a new message joins the end of the window and, once six are held, the oldest leaves |
| ChatService.RecentEndsWithLast | src/features/chat/service/chat.service.ts:145 | the newest message is the last one in the window |
| ChatService.Context | src/features/chat/service/chat.service.ts:145-153 | definition of the context: the last six messages as `User: ...` or `Assistant: ...`, joined by a blank line |
| ChatService.Prompt | src/features/chat/service/chat.service.ts:155 | definition of the prompt: the context, the user's message and the `Assistant:` cue, separated by blank lines |
| ChatService.ContextEndsWithLast | src/features/chat/service/chat.service.ts:145-153 | the context ends with the line of the newest message |
| ChatService.ContextEndsWithMessage | src/features/chat/service/chat.service.ts:145-155 | the context ends with the user's new message, so the prompt, which appends it again, holds it twice |
| ChatService.ResponseText | src/features/chat/service/chat.service.ts:159 | the reply is the agent's final output, or empty when there is none |
| ChatService.SavedHistoryInTurns | src/features/chat/service/chat.service.ts:137-173 | the history a successful send saves (old messages, the user's message, the reply with its extracted sources) stays alternating user/assistant, with no reference twice in one reply |
| ChatService.ExchangeInTurns | src/features/chat/service/chat.service.ts:137-173 | appending a user message and an assistant reply without a repeated reference to a history in turns keeps it in turns |
| ChatService.SendMessage | src/features/chat/service/chat.service.ts:114-180 | a missing conversation is `Conversation not found`; the first message sets the title; the prompt is built from the last six messages; the user's message and the reply with its extracted sources are appended; a failed agent run or a rejected save is `Failed to generate response` (500) with nothing saved; otherwise the document is saved |
| ChatService.Conversation.Save | src/features/chat/model/chat.model.ts:8-42 | `chat.save()` stores the current title and messages exactly when the schema's validation passes, and otherwise keeps the stored copy; the document itself is unchanged |
| ChatService.ExtractedSourcesHaveNoText | src/features/chat/service/chat.service.ts:24-51 | every extracted source has an empty `text` |
| ChatService.ReplyStorable | src/features/chat/model/chat.model.ts:8-26 | the save after a reply passes exactly when the document was valid before it, the reply is not empty and it cites no source |
| ChatService.QuranCitingReplyRejected | src/features/chat/model/chat.model.ts:12 | a reply that cites the Quran cannot be saved |
| Cors.Decide | src/config/cors.config.ts:14-39 | an origin is allowed exactly when it is missing or empty, the list holds `*`, or the list holds the origin; a denial names the origin |
| Cors.NoOrigin | src/config/cors.config.ts:19 | definition of `!origin`: the header is missing or empty (used by `Cors.Decide`) |
| Cors.NoOriginAllowed | src/config/cors.config.ts:19-21 | a request with no origin, or an empty one, is allowed whatever the list |
| Cors.WildcardAllowsAll | src/config/cors.config.ts:27-30 | a `*` entry allows every origin |
| Cors.MembershipOtherwise | src/config/cors.config.ts:33-38 | without `*`, an origin is allowed exactly when it is listed and is otherwise denied with `Origin <origin> is not allowed by CORS policy` |
| Cors.OnlyTheSetMatters | src/config/cors.config.ts:27-34 | the decision depends only on which entries the list holds, not on their order or repetition |
| Cors.MoreEntriesAllowMore | src/config/cors.config.ts:27-34 | adding entries never turns an allowed origin away |
| Cors.DenialNamesOrigin | src/config/cors.config.ts:37 | the error message holds the origin, so different denied origins get different messages |
| Cors.EntriesAreLiteral | src/config/cors.config.ts:27-34 | entries are compared as whole strings: `*` inside an entry is no pattern and a prefix is no match |

## Left out

- `fromToon` is not modelled: it is only a `JSON.parse` fallback with no TOON grammar, so there is no decoder and no round trip of the encoding.
- The `JSON.stringify`/`JSON.parse` normalisation in `toToon` is not modelled: the input is taken as an already-normalised JSON value. The `undefined` branch and the `undefined` cell case are therefore unreachable, and `Toon.Lookup` returns `None` only for a key an object lacks.
- Numbers are integers. `String(value)` for fractional numbers, exponents, `NaN` and infinities is float-to-text conversion and is not modelled.
- Object key order is taken as given by the value. JavaScript's `Object.keys` lists integer-like keys first in ascending order; the model does not reorder them.
- `KeySort.SortStringsSorted`: the model sorts by character code, while JavaScript's `sort()` compares UTF-16 code units. The two orders differ only for characters above U+FFFF, and the tabular test only compares two sorted lists for equality, which does not depend on the order used.
- `JsonString.Quote` works on Unicode scalar values. Lone surrogates, which `JSON.stringify` escapes as `\udxxx`, cannot occur in a Dafny string.
- `ChatService.Title`: lengths are counted in characters, not UTF-16 code units. Text with characters above U+FFFF is cut at a different place.
- `ChatSources.SourceOf`: `chapterId` and `verseNumber` are the exact values of their digit strings. `parseInt` returns a double, which loses precision above 2^53; the model does not round.
- Case-insensitive matching folds ASCII letters only. This is exact for the `gi` flags without `u`: no non-ASCII character folds to an ASCII letter there.
- `ChatSources.Slug` lower-cases ASCII letters only. It is applied only to the text of a matched collection name, which holds no other letters; `toLowerCase` on other text (`İ`, say) can lengthen it, and that case is not modelled.
- The regular-expression engine's `lastIndex` bookkeeping is modelled as a left-to-right search for non-overlapping matches, one position at a time.
- Timestamps (`createdAt`), database queries and saves, the user id and conversation id filters, and the AI agent call are not modelled. `findOne` is a nullable `Conversation` parameter, and the agent run is a function parameter that either yields an output or throws. Logging is left out.
- `ChatService.Conversation.Save`: validation is modelled as the `required` rules on `title`, `content`, `reference` and `text`. The `trim` setter on `title` is not modelled, so a title is stored untrimmed; only its validity takes trimming into account. `maxlength: 200` is not checked, since a title from `Title` has at most 53 characters. The enum rules on `role` and `type` always hold for the datatypes. Mongoose revalidates only modified paths; the model checks the whole document, which gives the same verdict when the loaded document was itself saved through the schema.
- The other operations of the chat service (`createConversation`, `getConversations`, `getConversation`, `deleteConversation`, `deleteAllConversations`) are database plumbing and are not modelled.
- `Cors.Decide`: `CORS_ORIGIN` is taken to be a list of strings. The environment parsing that builds it is not part of this model. The other `corsOptions` fields are constants and are not modelled.
