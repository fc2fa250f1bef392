# VoiceGarden SAPI adapter: verified model

A Dafny 4.11 model of the parts of the VoiceGarden SAPI adapter and its configurator that decide what is spoken, where
it maps back to, which audio bytes reach the client, how threads hand data over, and which voices are registered.
`dafny verify dfyconfig.toml` checks the whole project.

## What is modelled

**Text to SSML** (`CTTSEngine::BuildSSML` and its helpers). `Ssml` holds the computation as functions on values,
`SsmlEngine` the engine class whose methods, loops and fields follow the C++ and are proved to compute those functions.
What the documents promise is proved against three independent references:

- `XmlNesting` is a character-by-character reader of documents, after sections 3, 4.1 and 4.6 of XML 1.0: tags with
  their attribute values, references in content and in values, and for each open element its name and start tag.
  `SsmlBalance` (each phase of a fragment) and `SsmlDocument` (whole documents) prove that every document reads as well
  nested, exactly when names match in case and when say-as elements stay flat, and that Edge documents have at most two
  prosody elements. `TagValues` and `SsmlValues` prove exactly which unescaped values leave the document well nested.
  `SsmlInForce` proves that around each fragment exactly the elements its own state asks for are open, with its own
  attributes, and exactly when they stand around the tags the client has open.
- `AttributeReading` reads attributes (section 3.1), decodes entities and reads numbers. `MarkupMeaning` proves what
  each tag that is written says, and `SsmlMeaning` what a reader of the whole document finds at each fragment: prosody
  in per cent, breaks in milliseconds, categories, spelled, pronounced and plain text, and what keeps texts apart.
- `OffsetSearch` is the offset search without a cursor. `SsmlOffsets` proves that the recorded pairs are sorted, that
  the cached cursor cannot be observed, and that positions and ranges inside spoken text map back exactly; `SsmlSeams`
  proves exactly when ranges that reach a fragment's end do.
- `SsmlStrip` is the stripper. `SsmlRoundTrip` proves that stripping a document gives the spoken texts back.

**Plain text** (`PlainText`): the path in use when the synthesizer takes no SSML, with its offset map.

**Audio** (`Audio`): trailing-silence hold-back as a state machine over chunks, from any entry state and with the
optimisation flag as a field.

**Blocking queue** (`BlockingQueue`, `QueueSafety`): the critical sections as methods, and the protocol around them as a
state machine over atomic actions: program counters for any number of calling threads and one consumer, mutex ownership,
sleeping, spurious wakeups, and the stop callback with its registration and its wait on destruction.

**Voice tokens** (`VoiceTokens`, `Reconciliation`): the two-phase sync of a registry root, modelled as a map.

**Text and lookup algorithms** (`Tokenizer`, `Glob`, `Chunked`, `DataKey`, `LangIds`).

## Findings

Where the code does not do what its comments or names suggest, the model follows the code.

- `Speak` clears the held-silence count (TTSEngine.cpp:243) that `OnAudioData` wants to make up for
  (TTSEngine.cpp:1089), so no compensating silence is ever written: `Audio.SpeakNeverCompensates`.
- An odd-length chunk loses its last byte when that byte is not zero: `Audio.DeliverConserves` says exactly when.
- Locale, voice name and category are written into attributes unescaped (TTSEngine.cpp:1353-1355, 1391-1396, 1254-1269).
  `SsmlValues.DocumentIsWellNestedIff` gives the exact condition on the values written, for all values that do not end
  their own tag; `SsmlValues.ValuesDecide` says it in plain terms for values without apostrophes. A voice named `R&D` or
  `O'Brien` spoils every document (`SsmlValues.AmpersandInName`, `SsmlValues.ApostropheInName`), and so does plain
  speech with the category `R&D` (`SsmlValues.AmpersandInCategory`). The nesting results ask for values that can be
  quoted.
- End tags of the client are matched ignoring case (TTSEngine.cpp:1565-1567), but section 3 of XML 1.0 matches names
  exactly: a document where `</B>` closes `<b>` is not well-formed (`SsmlDocument.CaseIsIgnored`).
  `SsmlDocument.NamesMatchExactlyIff` gives the exact condition.
- The comment at TTSEngine.cpp:1547 allows blanks after a raw tag, but the element's name is then looked up in the
  untrimmed text: for `<b> ` it is found as `b>` (`TagHelpers.UntrimmedName`). The document stays well nested all the
  same, because the extra bracket is read as text (`SsmlNesting.CloseOneReads`), but the client's own `</b>` is ignored
  and what follows is still inside the element: `SsmlInForce.EndTagIsIgnored`. `SsmlInForce.TagIsHonouredIff` and
  `SsmlInForce.FragmentsStandAsMeantIff` give the exact condition.
- The comment at TTSEngine.cpp:1462 says that say-as cannot contain tags. The adapter's own say-as elements never do,
  but a say-as tag of the client can: `SsmlDocument.SayAsHasNoChild` says exactly when, `SsmlDocument.BreakInsideSayAs`
  is an instance.
- A mapped range that ends at its fragment's end and contains an escaped character can be too long when the next text
  follows without markup or space: `SsmlSeams.EscapedTailsMapBackIff` gives the exact condition on the fragments,
  `SsmlSeams.EscapedTailOverruns` an instance.
- A model id that begins or ends with a blank is read back without it, so the token just written for it is removed in
  the same run: `Reconciliation.WrittenSurvivesIff` gives the exact condition, `Reconciliation.LeadingBlankIsRemoved` an
  instance. A second run then adds and removes it again; `Reconciliation.SecondRunIsIdle` says exactly when it adds
  nothing.
- A model named like another model's alias overwrites that alias: `Reconciliation.UsableModelsArePresent` gives the
  exact condition, `Reconciliation.AliasIsOverwritten` an instance.
- `RegexEscape` leaves ']' and '}' as they are (NetUtils.cpp:25), which section 15.10 of ECMA-262, 3rd edition, does not
  allow outside classes and quantifiers, and puts a backslash before '$', which section 15.10.1 does not allow before a
  character of identifiers (the 6th edition, section 21.2.1, does): `Glob.CompiledGlobMatches` proves the pattern valid
  exactly for globs without the three, `Glob.ClosingBracketIsLeft` and `Glob.DollarIsEscaped` are instances.

## Model

| member | source | states |
|---|---|---|
| SsmlDocument.DocumentIsWellNested | VoiceGardenSAPIAdapter/TTSEngine.cpp:1351-1690 | for every fragment list whose raw fragments are single tags (blanks may follow) and whose unescaped values can be quoted, the document has one root, every element is closed by a tag of its own name, up to case, in the right order, and every ampersand, in content and in attribute values, begins a predefined or character reference: wrong-order closes, unmatched closes, tags never closed, and tags closed and reopened included |
| SsmlValues.DocumentIsWellNestedIff | VoiceGardenSAPIAdapter/TTSEngine.cpp:1351-1690 | for every voice and fragment list whose raw fragments are single tags: as long as no locale, voice name or written category ends its own tag, the document is well nested if and only if each of them leaves its tag ready to be closed |
| SsmlValues.ValuesDecide | VoiceGardenSAPIAdapter/TTSEngine.cpp:1462-1473 | for values without apostrophes: the document is well nested if and only if locale and voice name are acceptable attribute values and so is what is written for the category of every plain speech that does not follow plain speech with the same prosody, emphasis and category |
| SsmlValues.OddApostrophesSpoil | VoiceGardenSAPIAdapter/TTSEngine.cpp:1391-1396 | a locale, name or written category with an odd number of apostrophes and no double quote makes the document malformed |
| SsmlValues.AmpersandInName | VoiceGardenSAPIAdapter/TTSEngine.cpp:1391-1396 | a voice named R&D makes every document malformed |
| SsmlValues.ApostropheInName | VoiceGardenSAPIAdapter/TTSEngine.cpp:1391-1396 | a voice named O'Brien makes every document malformed |
| SsmlValues.AmpersandInCategory | VoiceGardenSAPIAdapter/TTSEngine.cpp:1240-1272 | plain speech with category R&D makes the document malformed, whatever follows it |
| SsmlFlags.OpensAtIff | VoiceGardenSAPIAdapter/TTSEngine.cpp:1462-1473 | the running flag makes a say-as element open at exactly the fragments given by that condition on neighbouring fragments |
| SsmlDocument.NamesMatchExactlyIff | VoiceGardenSAPIAdapter/TTSEngine.cpp:1560-1591 | names match in case as well, if and only if no end tag of the client closes a tag on the adapter's list that spells the name differently |
| SsmlDocument.CaseIsIgnored | VoiceGardenSAPIAdapter/TTSEngine.cpp:1565-1567 | `<b>` closed by `</B>` gives a document that is well nested up to case only |
| SsmlDocument.SayAsHasNoChild | VoiceGardenSAPIAdapter/TTSEngine.cpp:1462-1473 | no say-as element contains another element, if and only if no fragment writes an element while the innermost tag on the adapter's list of client tags is a say-as tag |
| SsmlDocument.BreakInsideSayAs | VoiceGardenSAPIAdapter/TTSEngine.cpp:1513-1517 | a silence behind a raw say-as tag puts a break element inside the say-as element |
| SsmlDocument.EdgeHasAtMostTwoProsodies | VoiceGardenSAPIAdapter/TTSEngine.cpp:1377-1379 | for Edge voices a reader counts at most two prosody elements, for any number of fragments and prosody changes |
| SsmlDocument.EdgeProsodyCount | VoiceGardenSAPIAdapter/TTSEngine.cpp:1606-1651 | after every prefix of the fragments at most two were opened, and the second stays open while anything is left to speak |
| SsmlDocument.BuildToAgrees | VoiceGardenSAPIAdapter/TTSEngine.cpp:1404-1680 | loop invariant: after every prefix, the open elements a reader sees are exactly those the flags and the tag list describe, and nothing is open that the next fragment would have to open something outside of |
| SsmlBalance.BeforeContentAgrees | VoiceGardenSAPIAdapter/TTSEngine.cpp:1409-1473 | opening keeps flags and document in agreement, and say-as is open only around plain speech |
| SsmlBalance.ContentAgrees | VoiceGardenSAPIAdapter/TTSEngine.cpp:1475-1604 | every kind of content, for full and for Edge voices, keeps flags and document in agreement |
| SsmlBalance.RawCloseAgrees | VoiceGardenSAPIAdapter/TTSEngine.cpp:1560-1591 | an end tag closes the innermost custom tag that is found by its name and everything inside it in reverse order, or is dropped when none is found; either way the document stays nested |
| SsmlBalance.CloseTagsAgrees | VoiceGardenSAPIAdapter/TTSEngine.cpp:1653-1679 | closing down to any level writes end tags that match what is open |
| SsmlFlags.CloseFlags | VoiceGardenSAPIAdapter/TTSEngine.cpp:1653-1679 | closing changes nothing but the document and the flags of the levels it closes; the list of custom tags survives, so that they can be reopened |
| SsmlFlags.TagListIs | VoiceGardenSAPIAdapter/TTSEngine.cpp:1545-1602 | the list of custom tags before any fragment is a function of the raw tag fragments alone |
| SsmlInForce.ContentStandsInItsElements | VoiceGardenSAPIAdapter/TTSEngine.cpp:1409-1473 | for voices with full SSML, where the content of any fragment begins a reader has open exactly the prosody, emphasis and say-as elements the fragment asks for, each with the start tag the fragment asks for (the category up to case), around the tags on the adapter's list |
| SsmlInForce.FragmentsStandAsMeantIff | VoiceGardenSAPIAdapter/TTSEngine.cpp:1545-1602 | every fragment stands around exactly the tags the client has open, an end tag closing the innermost tag of its name, if and only if every end tag before the last fragment meets a tag that is not written `<name>` with blanks behind it |
| SsmlInForce.TagIsHonouredIff | VoiceGardenSAPIAdapter/TTSEngine.cpp:1560-1591 | one raw tag changes the adapter's list as the client means it, under exactly that condition |
| SsmlInForce.EndTagIsIgnored | VoiceGardenSAPIAdapter/TTSEngine.cpp:1545-1602 | after `<b> ` and `</b>` the client has nothing open, but the next fragment is still inside the element |
| SsmlInForce.ProsodyIsOwn | VoiceGardenSAPIAdapter/TTSEngine.cpp:1412-1446 | the start tag of the open prosody element carries the fragment's own volume, rate and pitch, however many fragments ago it was opened |
| SsmlInForce.CategoryIsOwn | VoiceGardenSAPIAdapter/TTSEngine.cpp:1640-1648 | the start tag of the open say-as element carries the fragment's own category, up to case |
| SsmlFlags.LevelIsSafe | VoiceGardenSAPIAdapter/TTSEngine.cpp:1606-1651 | whatever level is preserved, nothing stays open that the next fragment does not want |
| SsmlMeaning.FragmentStandsAsAsked | VoiceGardenSAPIAdapter/TTSEngine.cpp:1409-1473 | for voices with full SSML, where the content of any fragment begins a reader has open exactly the elements asked for, and their attributes say so in numbers and names: volume as the product in per cent less 100, rate and pitch in per cent, each left out exactly at its default, and the category as SSML names it |
| SsmlMeaning.EdgeStandsAsAsked | VoiceGardenSAPIAdapter/TTSEngine.cpp:1412-1446 | for Edge voices, around every spoken fragment there is at most one prosody element; until a second has been opened it is there exactly if the fragment asks for it and says what the fragment asks for, and the second says what some fragment up to this one asked for |
| SsmlMeaning.FragmentSays | VoiceGardenSAPIAdapter/TTSEngine.cpp:1475-1604 | the document holds, where a fragment stands, what its kind says: its text once entities are decoded, a break of its milliseconds, a bookmark of its text, its text spelled out, its text with its phonemes, or for Edge voices its text alone |
| SsmlMeaning.TextsStayApart | VoiceGardenSAPIAdapter/TTSEngine.cpp:1275-1312 | before every plain text there is a tag, a blank, or two characters of one script, and a space was put there exactly where none of these was: no two words merge |
| SsmlMeaning.EdgeBookmarkPair | VoiceGardenSAPIAdapter/TTSEngine.cpp:1493-1498 | a bookmark of an Edge voice pairs its place in the document with the source end of the last text spoken before it |
| SsmlFlags.TagsOpenedIff | VoiceGardenSAPIAdapter/TTSEngine.cpp:1606-1679 | prosody, emphasis and the client's tags are written for a fragment exactly where the fragment before does not leave them open: other prosody, or for the latter two other emphasis |
| SsmlFlags.OpenedText | VoiceGardenSAPIAdapter/TTSEngine.cpp:1409-1473 | everything that is written before the content of a fragment, given by the fragment, the one before it and the list of client tags |
| SsmlFlags.ReportedIs | VoiceGardenSAPIAdapter/TTSEngine.cpp:1406-1407 | there is something to speak if and only if a fragment other than a bookmark has text, and every bookmark is reported with its position and text, in order |
| MarkupMeaning.ProsodyTagSays | VoiceGardenSAPIAdapter/TTSEngine.cpp:1418-1445 | what a reader finds in the prosody tag of any volume, rate and pitch |
| MarkupMeaning.RatesAreOrdered | VoiceGardenSAPIAdapter/TTSEngine.cpp:1435 | the percentage of a rate has its sign, grows strictly with it, and reaches -66 and 200 |
| MarkupMeaning.BreakTagSays | VoiceGardenSAPIAdapter/TTSEngine.cpp:1513-1517 | a break says exactly its milliseconds |
| MarkupMeaning.ContextTagSays | VoiceGardenSAPIAdapter/TTSEngine.cpp:1240-1272 | a date says its format, a known category its SSML name, any other category itself, for categories without apostrophes |
| MarkupMeaning.PhonemeTagSays | VoiceGardenSAPIAdapter/TTSEngine.cpp:1219-1238 | the phoneme tag says, in the SAPI alphabet, what the converter made of the phoneme ids, and nothing where it failed |
| MarkupMeaning.SpeakTagSays | VoiceGardenSAPIAdapter/TTSEngine.cpp:1353-1355 | version, namespaces and the voice's language are what a reader finds in the speak tag |
| MarkupMeaning.VoiceTagSays | VoiceGardenSAPIAdapter/TTSEngine.cpp:1391-1396 | the voice's name is what a reader finds in the voice tag, for names without apostrophes |
| AttributeReading.DecodedEscape | VoiceGardenSAPIAdapter/TTSEngine.cpp:1194-1217 | decoding the entities of an escaped text gives the text back |
| SsmlNesting.CloseOneReads | VoiceGardenSAPIAdapter/TTSEngine.cpp:1659-1668 | the end tag written for an open custom tag closes it, even where its name was looked up with a bracket too many |
| SsmlNesting.EscapedReads | VoiceGardenSAPIAdapter/TTSEngine.cpp:1202-1212 | any escaped text is pure character data to a reader: it opens, closes and breaks nothing |
| TagHelpers.StartTagHelpers | VoiceGardenSAPIAdapter/TTSEngine.cpp:1315-1348 | on every start tag the helpers agree with the reference reading: not closing, not self-closing, the same name |
| TagHelpers.EndTagHelpers | VoiceGardenSAPIAdapter/TTSEngine.cpp:1325-1348 | on every end tag the helpers agree with the reference reading: closing, not self-closing, the same name |
| TagHelpers.EmptyTagHelpers | VoiceGardenSAPIAdapter/TTSEngine.cpp:1343-1348 | every empty-element tag is recognised as self-closing |
| TagHelpers.UntrimmedName | VoiceGardenSAPIAdapter/TTSEngine.cpp:1315-1323 | which name is found in a start tag that may have blanks behind it, in every case |
| MarkupTags.ProsodyTagOf | VoiceGardenSAPIAdapter/TTSEngine.cpp:1421-1444 | for every volume, rate and pitch the markup written is one prosody start tag |
| TagValues.QuotableIff | VoiceGardenSAPIAdapter/TTSEngine.cpp:1391-1396 | a value without apostrophes leaves its tag ready to be closed if and only if it has no '<' and every ampersand in it begins a reference |
| MarkupTags.SpeakTagOf | VoiceGardenSAPIAdapter/TTSEngine.cpp:1353-1355 | for every locale the markup written is one speak start tag, if and only if the locale can be quoted |
| MarkupTags.VoiceTagOf | VoiceGardenSAPIAdapter/TTSEngine.cpp:1391-1396 | for every voice name the markup written is one voice start tag, if and only if the name can be quoted |
| MarkupTags.ContextTagOf | VoiceGardenSAPIAdapter/TTSEngine.cpp:1240-1272 | for every category the markup written is one say-as start tag, if and only if the value written for it can be quoted |
| MarkupTags.PhonemeTagOf | VoiceGardenSAPIAdapter/TTSEngine.cpp:1535-1538 | whatever the phoneme converter returns, the markup written is one phoneme start tag |
| MarkupTags.BookmarkTagOf | VoiceGardenSAPIAdapter/TTSEngine.cpp:1519-1522 | for every bookmark text the markup written is one empty bookmark element |
| OffsetSearch.MapRangeIs | VoiceGardenSAPIAdapter/TTSEngine.cpp:1802-1828 | for any sorted pairs and any position, the start keeps its distance from the last pair at or before it, or from the first, and does not go below zero |
| OffsetSearch.LengthIs | VoiceGardenSAPIAdapter/TTSEngine.cpp:1830-1863 | the end keeps its distance from the last pair at or before it or, among pairs at one place, from the first in a row that points at or past the end in the source; the length stays where that is the pair of the start |
| SsmlOffsets.CharactersMapBack | VoiceGardenSAPIAdapter/TTSEngine.cpp:1802-1828 | the document position of every character of every spoken NUL-free fragment maps back to exactly its source offset, whatever was escaped before it; the position really holds that character's escaped form |
| SsmlOffsets.InnerRangesMapBack | VoiceGardenSAPIAdapter/TTSEngine.cpp:1830-1863 | a range that ends before its fragment's end maps to its own source length, whatever is escaped in it |
| SsmlOffsets.PlainTailsMapBack | VoiceGardenSAPIAdapter/TTSEngine.cpp:1830-1863 | for source-ordered fragments a range up to the fragment's end maps to its own length when nothing in it is escaped |
| SsmlSeams.EscapedTailsMapBackIff | VoiceGardenSAPIAdapter/TTSEngine.cpp:1836-1863 | a range up to the fragment's end with an escaped character maps to its own length if and only if every later fragment whose text follows at once, with no tag closed or opened, no content and no space in between, begins in the source where this one ends |
| SsmlSeams.TouchesIff | VoiceGardenSAPIAdapter/TTSEngine.cpp:1404-1680 | the text of a later fragment begins in the document where this one's ends exactly under that condition on the fragments, their states and the client's tags |
| SsmlSeams.SeamIsSilentIff | VoiceGardenSAPIAdapter/TTSEngine.cpp:1606-1679 | between two fragments nothing is written exactly when the level kept open covers everything that is open on either side |
| SsmlSeams.EscapedTailOverruns | VoiceGardenSAPIAdapter/TTSEngine.cpp:1836-1863 | in the document for "& " at offset 0 and "x" at offset 5 the range of the first text is mapped to length 5 instead of 2 |
| SsmlOffsets.MappingsAreSorted | VoiceGardenSAPIAdapter/TTSEngine.cpp:1382-1383 | for every fragment list the pairs go from low to high document offset, which the cursor relies on |
| SsmlOffsets.MappingsFollowSource | VoiceGardenSAPIAdapter/TTSEngine.cpp:1487-1541 | for fragments in source order the pairs are sorted on the source side as well, simulated bookmarks included |
| SsmlOffsets.TextIsPlaced | VoiceGardenSAPIAdapter/TTSEngine.cpp:1505-1542 | each spoken fragment's escaped text stands in the final document where its pairs say, with no earlier or later pair inside it |
| OffsetSearch.CursorAgrees | VoiceGardenSAPIAdapter/TTSEngine.cpp:1810-1819 | whatever earlier calls left in the cursor, the search ends where a search from index 0 ends |
| OffsetSearch.WalkFindsLast | VoiceGardenSAPIAdapter/TTSEngine.cpp:1816-1819 | on sorted pairs the walk finds the last pair at or before the offset |
| OffsetExactness.GroupServes | VoiceGardenSAPIAdapter/TTSEngine.cpp:1194-1217 | after each entity the recorded pair matches the next source character with what follows the entity, and serves every character up to the next entity |
| OffsetExactness.CharacterIsExact | VoiceGardenSAPIAdapter/TTSEngine.cpp:1816-1828 | among any other pairs, the search for a character's position stops at its own pair and shifts to its source offset |
| SsmlRoundTrip.StripOfCompile | VoiceGardenSAPIAdapter/TTSEngine.cpp:1692-1783 | stripping a built document gives, trimmed, the spoken fragments' original texts in order with at most one space before each, and the blanks that stand behind raw tags, once for each time these are written: markup and escaping leave no trace |
| SsmlRoundTrip.StripOfTidyCompile | VoiceGardenSAPIAdapter/TTSEngine.cpp:1692-1783 | where raw tags have no blanks behind them the result is the spoken texts alone |
| SsmlStrip.StripOfItems | VoiceGardenSAPIAdapter/TTSEngine.cpp:1692-1783 | of any text, entities, tags and comments, with a tag or comment left open at the end or not, what is left is the text and the characters the entities stand for |
| Strings.TrimIs | VoiceGardenSAPIAdapter/TTSEngine.cpp:1776-1782 | blanks, tabs and line ends are cut from both ends and nothing else, and none is left there |
| SsmlStrip.StripOfEscape | VoiceGardenSAPIAdapter/TTSEngine.cpp:1202-1212 | stripping any escaped text gives the text back, trimmed |
| SsmlStrip.TagStrips | VoiceGardenSAPIAdapter/TTSEngine.cpp:1714-1734 | a tag without stray brackets that starts no comment contributes nothing, whatever follows it |
| SsmlEngine.Engine.BuildSSML | VoiceGardenSAPIAdapter/TTSEngine.cpp:1351-1690 | document, pairs, bookmarks and the has-text flag are those of the compilation the lemmas speak about, the cursor is reset and the pairs are sorted |
| SsmlEngine.Engine.MapTextOffset | VoiceGardenSAPIAdapter/TTSEngine.cpp:1802-1863 | on sorted pairs, which BuildSSML always leaves, offset and length are those of the search without a cursor, so they depend on no earlier call; only the cursor changes |
| SsmlEngine.Engine.StripSSML | VoiceGardenSAPIAdapter/TTSEngine.cpp:1692-1783 | the lexer loop with its two flags computes the stripped and trimmed text |
| SsmlEngine.Engine.AppendTextFragToSsml | VoiceGardenSAPIAdapter/TTSEngine.cpp:1194-1217 | appends the escaped text up to the first NUL and one pair behind each entity, and changes nothing else |
| SsmlEngine.Engine.AppendRawTag | VoiceGardenSAPIAdapter/TTSEngine.cpp:1545-1602 | document and tag list after a raw tag are those the nesting lemmas are about |
| SsmlEngine.Engine.AppendFrag | VoiceGardenSAPIAdapter/TTSEngine.cpp:1404-1680 | one round of the loop is one step of the compilation |
| PlainText.PlainMapper.ExtractSherpaPlainTextWithMap | VoiceGardenSAPIAdapter/TTSEngine.cpp:59-102 | text and map are rebuilt from the fragments alone, with no trace of an earlier call |
| PlainText.MapMatchesText | VoiceGardenSAPIAdapter/TTSEngine.cpp:59-102 | after trimming, the map still has exactly one entry per character |
| PlainText.TextIsAdded | VoiceGardenSAPIAdapter/TTSEngine.cpp:65-91 | a spoken text is put behind what there is, with a space in between if and only if that does not end in a blank |
| PlainText.TextsStayApart | VoiceGardenSAPIAdapter/TTSEngine.cpp:73-80 | every spoken text stands in the text, and unless nothing was spoken before it the character before it is a blank |
| PlainText.ExtractIsTrimmed | VoiceGardenSAPIAdapter/TTSEngine.cpp:93-101 | what is cut off the end is all blanks, from text and map alike, and what is left does not end in one |
| PlainText.TranslatePastEnd | VoiceGardenSAPIAdapter/TTSEngine.cpp:104-109 | past the end a position means the source end of the last character kept; without text it stays as it is |
| PlainText.TextIsFaithful | VoiceGardenSAPIAdapter/TTSEngine.cpp:73-90 | every character is the source character at its mapped offset, except the spaces inserted between two fragments, which repeat their predecessor's offset |
| PlainText.TextIsComplete | VoiceGardenSAPIAdapter/TTSEngine.cpp:65-91 | before trimming the text is all spoken texts in order with at most one space before each |
| PlainText.TranslateIsMonotone | VoiceGardenSAPIAdapter/TTSEngine.cpp:104-111 | for source-ordered fragments translation is total and never goes back, past the end included |
| PlainText.TranslateIsExact | VoiceGardenSAPIAdapter/TTSEngine.cpp:104-111 | a position's translation points at the same character in the source, or for an inserted space at the character before it |
| Audio.AudioWriter.OnAudioData | VoiceGardenSAPIAdapter/TTSEngine.cpp:1066-1153 | the whole new state and the bytes the site receives are those of the state machine; the length passed to the last write never underflows |
| Audio.AudioWriter.GetTrailingSilenceLengthMono | VoiceGardenSAPIAdapter/TTSEngine.cpp:1042-1064 | the backward loop computes the silent tail |
| Audio.TrailingSilenceIsMaximal | VoiceGardenSAPIAdapter/TTSEngine.cpp:1042-1064 | the silent tail consists of zero samples, is preceded by a non-zero sample or is everything, and counts an odd last byte whatever its value |
| Audio.DeliverConserves | VoiceGardenSAPIAdapter/TTSEngine.cpp:1105-1141 | bytes written followed by the silence held equal what they were before followed by the chunk, if and only if, without the optimisation, nothing is held, or with it the chunk has even length, is a single byte, ends in a zero byte or is beyond the holding limit |
| Audio.SilenceIsHeld | VoiceGardenSAPIAdapter/TTSEngine.cpp:1105-1141 | with the optimisation, a chunk of zero samples is held until a second of silence is; of any other chunk exactly the zero samples at its end are held |
| Audio.CompensationIs | VoiceGardenSAPIAdapter/TTSEngine.cpp:1079-1103 | what is written before the first chunk: the held silence in whole milliseconds less the time since Speak, within five seconds of the last utterance, and otherwise nothing |
| Audio.CallConserves | VoiceGardenSAPIAdapter/TTSEngine.cpp:1066-1153 | one call from any state neither loses, invents nor reorders bytes behind the compensating silence |
| Audio.UtteranceConserves | VoiceGardenSAPIAdapter/TTSEngine.cpp:1066-1153 | after every call of an utterance, with and without the optimisation, bytes written and silence held are the compensation followed by all chunks received; without it nothing is held or compensated |
| Audio.SpeakDelivers | VoiceGardenSAPIAdapter/TTSEngine.cpp:241-244 | after Speak, whatever was held before it, bytes written and silence held are what was written before followed by all chunks received |
| Audio.CompensationIsBounded | VoiceGardenSAPIAdapter/TTSEngine.cpp:1079-1103 | compensation never exceeds the silence held before it, even when the tick counter wraps around |
| Audio.TotalIsBounded | VoiceGardenSAPIAdapter/TTSEngine.cpp:1077-1141 | over any sequence of utterances no more is written and held than was received and held before |
| Audio.HeldIsBounded | VoiceGardenSAPIAdapter/TTSEngine.cpp:1105-1138 | held silence stays below one second plus the longest chunk |
| Audio.SpeakNeverCompensates | VoiceGardenSAPIAdapter/TTSEngine.cpp:241-244 | from the first Speak on, no compensating silence is ever written, whatever follows |
| QueueSafety.NoWakeupIsLost | VoiceGardenSAPIAdapter/BlockingQueue.h:22-76 | in every reachable state, with any number of callers, a sleeping consumer that could find an item, completion, failure or a stop request is about to be notified |
| QueueSafety.WorkWakesConsumer | VoiceGardenSAPIAdapter/BlockingQueue.h:33-48 | from every such state, there is a sequence of steps of the threads already running that wakes it: no new call, no step of the consumer and no spurious wakeup is needed, so the notifiers are not blocked |
| QueueSafety.HistoryIsConserved | VoiceGardenSAPIAdapter/BlockingQueue.h:22-58 | in every interleaving the accepted pushes in lock order are the values taken followed by those still queued |
| QueueSafety.NothingMeansDrained | VoiceGardenSAPIAdapter/BlockingQueue.h:50-53 | take returns nothing without a stop request only when completed without failure and every accepted value has been delivered |
| QueueSafety.FailTakesEffect | VoiceGardenSAPIAdapter/BlockingQueue.h:68-76 | a thread inside fail leaves an open queue complete with its exception recorded, and a complete one as it is |
| QueueSafety.FailureIsThrown | VoiceGardenSAPIAdapter/BlockingQueue.h:50-76 | in every run from there, every take that ends throws that exception |
| QueueSafety.FailThenTake | VoiceGardenSAPIAdapter/BlockingQueue.h:36-76 | fail followed by take with nothing else going on throws |
| QueueSafety.CompleteTakesEffect | VoiceGardenSAPIAdapter/BlockingQueue.h:59-67 | a thread inside complete leaves the queue complete with everything still in it |
| QueueSafety.PushTakesEffect | VoiceGardenSAPIAdapter/BlockingQueue.h:22-31 | a thread inside push puts its value behind all others, unless the queue is complete |
| QueueSafety.StopTakesEffect | VoiceGardenSAPIAdapter/BlockingQueue.h:36-41 | a stop request is possible at any time and changes no data |
| QueueSafety.TakeAnswers | VoiceGardenSAPIAdapter/BlockingQueue.h:50-57 | in every reachable state a take that has left the wait loop throws the failure if there is one, returns nothing and changes nothing if stopped, takes the first value if there is one, and otherwise returns nothing from a complete queue |
| QueueSafety.FailureIsFinal | VoiceGardenSAPIAdapter/BlockingQueue.h:68-76 | once a failure has taken effect every later take throws it, nothing is delivered and nothing is accepted |
| QueueSafety.CompletionIsFinal | VoiceGardenSAPIAdapter/BlockingQueue.h:59-67 | once completed nothing more is accepted and no failure is recorded or replaced |
| QueueSafety.MutexIsExclusive | VoiceGardenSAPIAdapter/BlockingQueue.h:22-76 | no two threads are ever inside critical sections at once |
| QueueSafety.StepKeepsInv | VoiceGardenSAPIAdapter/BlockingQueue.h:22-76 | every atomic action of every thread keeps the protocol's invariant |
| BlockingQueue.Queue.PushLocked | VoiceGardenSAPIAdapter/BlockingQueue.h:22-31 | the critical section of push changes the fields as the protocol's step does, and says whether to notify |
| BlockingQueue.Queue.TakeLocked | VoiceGardenSAPIAdapter/BlockingQueue.h:50-57 | the part of take behind the wait loop changes the fields and answers as the protocol's step does |
| BlockingQueue.Queue.CompleteLocked | VoiceGardenSAPIAdapter/BlockingQueue.h:59-67 | the critical section of complete changes the fields as the protocol's step does, and notifies only when the queue is empty |
| BlockingQueue.Queue.FailLocked | VoiceGardenSAPIAdapter/BlockingQueue.h:68-76 | the critical section of fail changes the fields as the protocol's step does; a second failure or a failure after completion is dropped |
| Reconciliation.TargetIsReached | SherpaOnnxConfig/MainForm.cs:2795-2946 | after a run every resolvable Sherpa token names a valid model, and every alias left is requested and not en-US |
| Reconciliation.UsableModelsArePresent | SherpaOnnxConfig/MainForm.cs:2801-2828 | after a run every usable model has a token of its name, which resolves to the model if and only if no model processed later wants an alias of that name, and likewise for its alias |
| Reconciliation.AliasIsOverwritten | SherpaOnnxConfig/MainForm.cs:2813-2828 | the token of foo-enus takes the place of the alias of foo |
| Reconciliation.WrittenIsKept | SherpaOnnxConfig/MainForm.cs:2831-2876 | nothing written in a run is removed by it, for ids that read back |
| Reconciliation.WrittenSurvivesIff | SherpaOnnxConfig/MainForm.cs:2831-2876 | a written token survives if and only if the model read back from it, from its stored name or where that is blank from its own, is valid and wants the alias, should the token be taken for one |
| Reconciliation.LeadingBlankIsRemoved | SherpaOnnxConfig/MainForm.cs:2922-2924 | an id with a leading blank loses its token in the run that wrote it |
| Reconciliation.SecondRunIsIdle | SherpaOnnxConfig/MainForm.cs:2795-2877 | whatever the ids are, a second run leaves the same tree and removes as many tokens as it adds; it adds none if and only if every token written survives |
| Reconciliation.OthersAreFramed | SherpaOnnxConfig/MainForm.cs:2833-2834 | tokens whose names do not start with the Sherpa prefix are neither changed, removed nor created |
| VoiceTokens.UpdateHoldsMeta | SherpaOnnxConfig/MainForm.cs:3239-3282 | after a write every registry value is the named field of the metadata; blank paths leave what was there, a blank or unknown quality is removed, and every other value stays |
| VoiceTokens.TrimCutsBlanks | SherpaOnnxConfig/MainForm.cs:2922-2924 | the stored model id is trimmed of blanks at both ends and of nothing else |
| Reconciliation.LastWriteIsHeld | SherpaOnnxConfig/MainForm.cs:3239-3282 | after any writes a token holds the metadata of its last write in that sense |
| Reconciliation.SyncedTokenHolds | SherpaOnnxConfig/MainForm.cs:2801-2877 | so does every written token that is still there after a run |
| Reconciliation.PlanCarriesModels | SherpaOnnxConfig/MainForm.cs:2801-2828 | what is written is the model's own metadata, or for an alias a copy that says en-US and 409 and has the suffix in both names, with everything else the model's |
| Reconciliation.ModelsArePlanned | SherpaOnnxConfig/MainForm.cs:2801-2882 | every usable model is written, and its alias if and only if it was requested and the locale is not en-US |
| Reconciliation.UnwrittenStaysIff | SherpaOnnxConfig/MainForm.cs:2830-2946 | a token that is not written stays as it is if and only if it is no Sherpa token, spells no model, or names a valid one whose alias, if it is one, is wanted |
| Reconciliation.LastWriteDecides | SherpaOnnxConfig/MainForm.cs:3239-3260 | model name and alias flag of a token are those of its last write, whatever was there before |
| VoiceTokens.TokenStore.SyncPersistentTokensToRoot | SherpaOnnxConfig/MainForm.cs:2795-2877 | the tree becomes that of the two-phase specification, and the token count changes by tokens added less tokens removed |
| VoiceTokens.TokenStore.WritePersistentToken | SherpaOnnxConfig/MainForm.cs:3239-3283 | one token is created or updated value by value, all others stay, and the right counter moves |
| VoiceTokens.TokenStore.TryResolveTokenModelId | SherpaOnnxConfig/MainForm.cs:2907-2946 | the model id stored in the token wins over the one its name spells, and an alias is known by flag or by suffix |
| VoiceTokens.TokenStore.RemoveStaleTokens | SherpaOnnxConfig/MainForm.cs:2830-2876 | exactly the stale tokens go, in whatever order names are listed, and each is counted once |
| VoiceTokens.PutAllCount | SherpaOnnxConfig/MainForm.cs:2813-2828 | writing grows the tree by exactly the number counted as added |
| Tokenizer.Tokenize | VoiceGardenSAPIAdapter/StringTokenizer.h:30-114 | iteration terminates and yields all tokens, in order or for a single-character delimiter in reverse order |
| Tokenizer.JoinOfSplit | VoiceGardenSAPIAdapter/StringTokenizer.h:30-114 | joining the tokens with the delimiter rebuilds the string |
| Tokenizer.TokensAreLeftmost | VoiceGardenSAPIAdapter/StringTokenizer.h:30-114 | every token but the last ends at the first delimiter behind its start, so the tokens are unique |
| Tokenizer.TokensAreFree | VoiceGardenSAPIAdapter/StringTokenizer.h:30-114 | no token contains the delimiter |
| Tokenizer.BackIsReverse | VoiceGardenSAPIAdapter/StringTokenizer.h:66-103 | reading from the back with rfind gives the forward tokens in reverse order |
| Tokenizer.StringTokenIterator.Advance | VoiceGardenSAPIAdapter/StringTokenizer.h:60-114 | each step consumes exactly the current token of what is left |
| Glob.CompiledGlobMatches | VoiceGardenSAPIAdapter/NetUtils.cpp:18-38 | the escaped glob is a valid pattern if and only if the glob has no ']', '}' or '$', and then it matches exactly the strings without line terminators that the glob matches |
| Glob.ClosingBracketIsLeft | VoiceGardenSAPIAdapter/NetUtils.cpp:24-32 | the pattern made of [::1] is not valid |
| Glob.EscapedReads | VoiceGardenSAPIAdapter/NetUtils.cpp:30-32 | the expression reads back as one term per glob character, no literal repeated by a star behind it, or not at all where a closing bracket or brace is left in it or a dollar sign is escaped |
| Glob.DollarIsEscaped | VoiceGardenSAPIAdapter/NetUtils.cpp:24-32 | the pattern made of a dollar sign is not valid |
| Glob.RegexEscape | VoiceGardenSAPIAdapter/NetUtils.cpp:18-38 | the find-and-copy loop computes the character-wise escape |
| Chunked.ChunkedRoundTrip | VoiceGardenSAPIAdapter/NetUtils.cpp:509-524 | any body chunked as in section 7.1 of RFC 9112, with sizes in any spelling, extensions and a trailer, decodes to the concatenation of its chunks |
| Chunked.SizeLineReads | VoiceGardenSAPIAdapter/NetUtils.cpp:517 | every spelling of a chunk size below 2^32 that the RFC allows, an extension behind it included, is read as that size |
| Chunked.StoulReads | VoiceGardenSAPIAdapter/NetUtils.cpp:517 | blanks, a sign and a radix prefix before the digits, and anything behind them; a minus sign negates modulo 2^32, and a value of 2^32 or more throws |
| Chunked.StoulRefuses | VoiceGardenSAPIAdapter/NetUtils.cpp:517 | without a digit behind blanks std::stoul throws |
| Chunked.CutInLine | VoiceGardenSAPIAdapter/NetUtils.cpp:514-516 | a body cut within a size line decodes to the chunks before it |
| Chunked.CutInData | VoiceGardenSAPIAdapter/NetUtils.cpp:519-520 | a body cut within the data of a chunk decodes to the chunks before it |
| Chunked.CutBehindData | VoiceGardenSAPIAdapter/NetUtils.cpp:520-522 | a chunk that lacks only its line end is complete |
| Chunked.BadSizeThrows | VoiceGardenSAPIAdapter/NetUtils.cpp:517 | a size line that std::stoul refuses ends everything with its exception |
| Chunked.DeChunk | VoiceGardenSAPIAdapter/NetUtils.cpp:509-524 | the loop decodes front to back on every input, malformed bodies and the exception of std::stoul included |
| DataKey.Key.EnumItems | VoiceGardenSAPIAdapter/DataKey.h:253-297 | for every index the nested loops find the item at that index of the virtual names followed by the registry names they do not shadow, and fail exactly past the end |
| DataKey.MergedEnumerates | VoiceGardenSAPIAdapter/DataKey.h:264-292 | with and without a registry key, for every index: the virtual items in order, then the name that no virtual item shadows with exactly that many such names before it, and nothing if there are not that many |
| DataKey.MergedIsUnion | VoiceGardenSAPIAdapter/DataKey.h:258-260 | the enumeration lists the union of both lists up to case, and nothing else |
| DataKey.MergedIsDistinct | VoiceGardenSAPIAdapter/DataKey.h:258-260 | it lists nothing twice when neither list repeats a name |
| LangIds.LanguageListRoundTrip | VoiceGardenSAPIAdapter/VoiceTokenEnumerator.cpp:202-210 | any non-empty list of 16-bit language ids survives printing, tokenizing and parsing |
| LangIds.HexRoundTrip | VoiceGardenSAPIAdapter/LangUtils.h:10-42 | every 16-bit language id survives printing and parsing, zero included, which prints as nothing |
| LangIds.DigitOfIs | VoiceGardenSAPIAdapter/LangUtils.h:15-21 | a digit is read by its place among the lower-case or the upper-case digits, and nothing else is a digit |
| LangIds.ParseReads | VoiceGardenSAPIAdapter/LangUtils.h:10-25 | digits of either case are read as the number they stand for, modulo 2^16, up to the first other character |
| LangIds.HexShape | VoiceGardenSAPIAdapter/LangUtils.h:29-42 | the digits printed are lower-case, at most four, and do not begin with a zero |
| LangIds.PrintLanguageIDs | VoiceGardenSAPIAdapter/VoiceTokenEnumerator.cpp:202-210 | the printer's loop gives the ids in hexadecimal joined by semicolons |
| LangIds.ParseLanguageIDs | VoiceGardenSAPIAdapter/VoiceTokenEnumerator.cpp:544-547 | the parser's loop collects exactly the ids of the tokens |
| LangIds.HexLangToLangID | VoiceGardenSAPIAdapter/LangUtils.h:10-25 | reading stops at the first character that is no hexadecimal digit and wraps at 16 bits |
| LangIds.LangIDToHexLang | VoiceGardenSAPIAdapter/LangUtils.h:29-42 | digits from the most significant down, without leading zeros |

## Left out

- SsmlDocument.DocumentIsWellNested: raw fragments that are no single tag are not covered; the adapter passes on what
  the client wrote.
- SsmlValues.DocumentIsWellNestedIff: values that end the tag they are written into, such as `x'>`, are not covered;
  they may go on with markup of their own.
- SsmlEngine.Engine.BuildSSML: requires a '<' in every raw tag fragment, except for Edge voices; without one the
  source's `remove_prefix` is undefined behaviour.
- SsmlOffsets.CharactersMapBack: positions inside markup are not claimed; the code extrapolates past a fragment's end
  there. Sources and documents of 4 GiB or more are excluded, since ULONG offsets wrap.
- SsmlInForce.ContentStandsInItsElements: not claimed for Edge voices, which lose prosody changes after the second by
  design.
- QueueSafety.NoWakeupIsLost: one consumer and one stop source; with several consumers `complete` notifies only when the
  queue is empty.
- Audio.AudioWriter.OnAudioData: without the optimisation the chunk must be as long as what is held, or the last write
  underflows; nothing is ever held then.
- Audio.UtteranceConserves: with the optimisation, chunks of even length whose size plus one second fits in 32 bits; and
  writes that succeed, the failure result of a write is not modelled.
- Chunked.DeChunk: size_t overflow of position plus chunk size is not modelled; a size is at most 32 bits wide, as
  `unsigned long` is on Windows.
- Tokenizer.Tokenize: the char-array delimiter, the empty delimiter, null views and reverse iteration with longer
  delimiters.
- LangIds.ParseLanguageIDs: one token's list; the loop over all voice tokens is registry access.
- Glob.CompiledGlobMatches: the case-insensitive flag of the compiled expression.
- Strings are sequences of code units; surrogate pairs are not distinguished. `iswspace` and `char.IsWhiteSpace` are the
  Unicode White_Space set, case-insensitive comparison folds ASCII letters only.
- `GetStringTypeW` and `ISpPhoneConverter` are arbitrary functions; a converter failure is kept.
- The engine's one C++ class is split by groups of fields (`Engine`, `PlainMapper`, `AudioWriter`); the locals of
  BuildSSML that outlive a fragment are the record `Locals`.
- Signed overflow of the rate sum, COM error codes, NULL pointers, allocation failures and log messages.
- The reference reader keeps attribute syntax loose (no uniqueness or name rules) and knows no comments, CDATA or
  processing instructions; none is written by the adapter.
- Model ids and registry names stand for their case-folded forms, and ids may be processed in any order; what can be
  built from a model's directory is a function that does not change during a run.
- The sentinel path of Speak, boundary and viseme events, the rest of token enumeration, TaskScheduler, the cached
  download, HTTP transport, file-system and registry access, installers and user interfaces.
