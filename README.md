# komusan in Dafny

komusan builds the vocabulary of a constructed language from words in many source
languages. Its Python scripts turn each source word into a candidate in the language's
small phoneme inventory, count how much the word had to be distorted on the way, and rank
the candidates of all source languages by how similar they are to each other. Around this
engine sit smaller scripts: the line-oriented dictionary format, Wiktionary and Wikipedia
extraction, WALS and PHOIBLE statistics over the source languages, the exported word list
and the metadata translation table.

This project models that code in Dafny and proves what it promises. One `.dfy` file per
module:

- `phonology.dfy`, `candidate.dfy`, `repair.dfy`, `separation.dfy`, `validation.dfy`
  (`scripts/buildutil.py`). These hold the internal alphabet and its consonant classes,
  and the `Candidate` class with its scores.
  - Syllable repair (`insert_filler_vowels`) is modelled as an ordered rewrite pipeline
    plus the fixpoint loop that separates illegal consonant pairs.
  - The validator is stated declaratively, with an if-and-only-if against the checking
    code.
  - `export_word`, `normalize_word` and the vowel count are modelled as well.
- `constraints.dfy`: the semicolon-separated entry constraints and `Constraints.fails`.
- `translit.dfy`, `preprocess.dfy`, `postprocess.dfy`, `builder.dfy`
  (`scripts/buildvoc.py`). These cover `mk_candidate`:
  - the longest-prefix table conversion with its penalty flags;
  - the language-specific rewrites before and after it;
  - the candidate cache.
- `similarity.dfy`: the similarity scoring of `scripts/buildvoc.py`.
  - `calc_distance` is built on a Levenshtein distance defined here.
  - `calc_sim_penalties` sums minimum distances per language.
  - `store_normalized_sim_penalties` normalises the sums to [0, 1].
- `ranking.dfy`, `entries.dfy`, `merge.dfy`: the rest of `scripts/buildvoc.py`.
  - `print_cands` sorts, filters and numbers the candidates.
  - The entry helpers are kinds, minimum lengths, translation clean-up and the fit of
    compound parts.
  - `do_merge_entries` is in `merge.dfy`.
- `text.dfy`, `scan.dfy`, `util.dfy`, `wrappers.dfy`, `sets.dfy`: Python's string
  operations, a left-to-right substitution standing in for the few regular expressions
  used, and `scripts/util.py`.
- `linedict.dfy` (`scripts/linedict.py`): the `LineDict` class, its parser and its
  serialiser, with the round trip between them.
- `parsewikt.dfy` (`scripts/parsewikt.py`) and `languagelist.dfy`
  (`scripts/parselanguagelist.py`).
- `walsfreq.dfy`, `walscheck.dfy`, `walsarea.dfy`, `phoible.dfy`, `wordlist.dfy`,
  `metadata.dfy`: the aggregation and export scripts, on in-memory rows instead of files.

Code that updates objects in place is written as classes with `modifies` clauses, and
loops as methods proved against specification functions. Pure code is written as
functions with lemmas.

## Model

| member | source | states |
|---|---|---|
| Util.Coalesce | scripts/util.py:140-148 | None exactly when every argument is None; otherwise the first argument that is not None |
| Util.GetElem | scripts/util.py:207-217 | `row[idx]` when the row is long enough, the default otherwise |
| Util.ExtractKeyVal | scripts/util.py:156-175 | the first two fields of a row, "" for each missing one; a row of two or more fields gives exactly its first two |
| Util.Capitalize | scripts/util.py:261-270 | same length; the first character upper-cased and the rest unchanged; the empty text stays empty |
| Util.GlossIsInformal | scripts/util.py:332-338 | true exactly when the gloss holds a space, no '+', and does not start with '=' |
| Util.SplitTextAndExplanation | scripts/util.py:411-429 | an explanation exists exactly when the stripped text ends with ')' and holds a '('; without one the main text is the stripped text; an explanation holds no '(' |
| Util.ExplanationIsLastParenGroup | scripts/util.py:411-429 | the explanation is the stripped text between the last '(' and the final ')', and the main text is what precedes that '(', stripped |
| Util.ExtractTextInBrackets | scripts/util.py:288-298 | the text between the first '[' and the first ']' when that ']' comes later; otherwise the whole text or None, as the flag says; an extracted part holds no ']' |
| Util.DiscardTextInBrackets | scripts/util.py:278-285 | a text without '[' is returned unchanged |
| Util.DiscardTrailingGroup | scripts/util.py:278-285 | a closing one-line group `[...]` is removed together with the whitespace before it, leaving the right-stripped text before it |
| Util.EliminateParens | scripts/util.py:273-275 | the result has no whitespace at either end; a text without '(' is only stripped |
| Util.EliminateTrailingParens | scripts/util.py:273-275 | a closing group `(...)` is removed together with the whitespace before it, and what is left is stripped |
| Util.SplitOnSepSpec | scripts/util.py:355-393 | what `split_on_sep` returns; `SplitOnSepTrivialCases` states the cases without a separator, `RemergePreservesText` that remerging keeps the text, and `SplitOnSep` that the method computes it |
| Util.SplitOnSep | scripts/util.py:355-393 | the method (split, strip, remerge loop) computes the specification `SplitOnSepSpec` |
| Util.SplitOnSepTrivialCases | scripts/util.py:355-367 | None and "" give no parts; a text without the separator gives its stripped self as the only part |
| Util.CommaSplit | scripts/util.py:396-399 | the comma splitter gives no parts for None or "", and the stripped text alone when it holds no ',' |
| Util.PipeSplit | scripts/util.py:401-404 | the pipe splitter gives no parts for None or "", and the stripped text alone when it holds no pipe character |
| Util.SemicolonSplit | scripts/util.py:406-409 | the semicolon splitter gives no parts for None or "", and the stripped text alone when it holds no ';' |
| Util.RemergePreservesText | scripts/util.py:373-393 | the remerging loop only glues neighbouring parts back with the full separator: the joined text is unchanged and there are no more parts than before |
| Util.CompactLinesStartWithPrefix | scripts/util.py:301-329 | there are lines exactly when the list is non-empty, and every line starts with the prefix |
| Util.FormatCompactStringList | scripts/util.py:301-329 | the line-filling loop computes `CompactLineList` joined by newlines, and pops the caller's first item |
| Scan.Sub | scripts/buildutil.py:318 | `re.sub` with a matcher, left to right over the original text; `Scan.SubNoLonger` states that it never lengthens the text when no replacement is longer than its match, and `Scan.SubKeepsAbsent` that it brings in no character neither the text nor a replacement has |
| Scan.SubNoLonger | scripts/buildutil.py:318 | substitution never lengthens the text when no replacement is longer than the text it replaces |
| Scan.SubKeepsAbsent | scripts/buildutil.py:318 | a character that neither the text nor any replacement holds is not in the result |
| Text.NormalizeIsSingleSpaced | scripts/util.py:346-352 | `normalize` leaves no whitespace at either end and single spaces inside |
| LineDicts.LineDict.constructor | scripts/linedict.py:34-43 | a new dictionary is empty and has no first line number |
| LineDicts.LineDict.Add | scripts/linedict.py:69-84 | the new state is `AddTo` of the old one: the value and line number are stored, replacing an old value (a new key goes last), and only the first call sets the first line number; the dictionary stays well-formed |
| LineDicts.AddToWellFormed | scripts/linedict.py:69-84 | `add` keeps the keys distinct, exactly the stored ones, each with a line number |
| LineDicts.AddPrefixLastWins | scripts/linedict.py:79-81 | after a run of `add` calls a key holds the value and line number of its last call |
| LineDicts.AddPrefixAbsent | scripts/linedict.py:79-81 | a key no call carries is not in the dictionary |
| LineDicts.AddPrefixFirst | scripts/linedict.py:82-84 | the first line number is that of the first call, and stays unset without calls |
| LineDicts.LineDict.AppendToVal | scripts/linedict.py:86-91 | `found` exactly when the key is present; the text goes at the end of its value; an unknown key (KeyError) changes nothing |
| LineDicts.LineDict.SetItem | scripts/linedict.py:93-99 | `add` with the first line number, or -1 before any `add` |
| LineDicts.LineDict.DelItem | scripts/linedict.py:101-103 | `found` exactly when the key is present; the key leaves the store and the key order, the line numbers stay; an unknown key (KeyError) changes nothing |
| LineDicts.RemoveKeyProperties | scripts/linedict.py:101-103 | deleting drops exactly that key from the key order and keeps the rest distinct |
| LineDicts.LinenoAfterAdds | scripts/linedict.py:105-117 | `first_lineno` is -1 for an empty dictionary and the first call's line number otherwise; `lineno` is -1 for a key never added |
| LineDicts.AddStores | scripts/linedict.py:57-84 | reading back a key gives the value and line number of its latest `add` |
| LineDicts.Parsed | scripts/linedict.py:132-214 | the dictionary `dict_from_str` builds; `DictFromStr` states that the method builds it, `ParsePrefixWellFormed` that it is well formed, `StringifyRoundTrip` that it reads back what `stringify_dict` wrote |
| LineDicts.DictFromStr | scripts/linedict.py:132-214 | the line loop fills a new LineDict with exactly `Parsed(entry, firstline)`, the fold of the one-line step over the text's lines |
| LineDicts.ReadLine | scripts/linedict.py:170-212 | one pass of the line loop performs `ParseLine` on the dictionary and the last key |
| LineDicts.ParsePrefixWellFormed | scripts/linedict.py:132-214 | every state the parser passes through is a well-formed dictionary |
| LineDicts.LineKinds | scripts/linedict.py:173-193 | a continuation line appends "\n" and the text after its two spaces to the last key's value, and is ignored at the start or after a comment or empty line; empty and comment lines add nothing and reset the last key |
| LineDicts.KeyValueKinds | scripts/linedict.py:194-212 | a line without ':' adds nothing; an empty key adds nothing and resets the last key; otherwise the stripped key and value are added on that line number and the key becomes the last key |
| LineDicts.IndentIgnored | scripts/linedict.py:194-196 | dropping invalid leading whitespace does not change the key and value |
| LineDicts.SplitAt | scripts/linedict.py:198-205 | a line is split at its first ':' into the stripped key and the stripped value |
| LineDicts.StringifyDict | scripts/linedict.py:270-283 | the loop builds `Stringified(pairs)`: one "key: value" line per pair, normalised, in order |
| LineDicts.StringifiedLines | scripts/linedict.py:270-283 | the written text splits back into exactly one line per pair |
| LineDicts.StringifyRoundTrip | scripts/linedict.py:270-283 | parsing what `stringify_dict` wrote performs the normalised `add` calls in order, the i-th on line firstline + i, when every key is non-empty after normalising, holds no ':' and does not start with '#' |
| LineDicts.ParseWrittenLines | scripts/linedict.py:270-283 | parsing the first n written lines performs the first n normalised `add` calls |
| LineDicts.PairLineParses | scripts/linedict.py:280-282 | a written line with a parsable key adds its normalised key and value |
| Metadata.ValueProvider.constructor | scripts/metadata.py:12-35 | the record loop builds `TableUpTo` over all records for the configured language |
| Metadata.TableStep | scripts/metadata.py:24-34 | a record with both a "value" and a translation stores it, and any other record is skipped |
| Metadata.TableKeys | scripts/metadata.py:24-34 | a value is in the table exactly when some record has both fields and names it |
| Metadata.TableLastWins | scripts/metadata.py:34 | a later usable record with the same value overwrites an earlier one |
| Metadata.ValueProvider.Lookup | scripts/metadata.py:37-46 | the stored translation when there is one, else the value followed by " (?)" |
| Metadata.LookupUnknown | scripts/metadata.py:43-46 | a value that no usable record names is looked up as the value followed by " (?)" |
| Metadata.LookupKnown | scripts/metadata.py:43-46 | a value is looked up as the translation of the last usable record naming it |
| Wordlist.ParseValue | scripts/dict2wordlist.py:68-70 | a missing or empty "value" field gives None |
| Wordlist.FractionRewrite | scripts/dict2wordlist.py:71-74 | the fraction rewrite of `parse_value`; `FractionRewriteShape` states that "x/y" becomes the stripped y, '.', and the stripped x, and that a value without '/' is kept |
| Wordlist.FractionRewriteShape | scripts/dict2wordlist.py:71-74 | a value "x/y" is rewritten to the stripped y, '.', and the stripped x, split at the first '/'; a value without '/' is kept |
| Wordlist.Power | scripts/dict2wordlist.py:76-79 | "b^e" gives the integer b^e for e >= 0 and 1 / b^-e for e < 0, and fails (a ZeroDivisionError the ValueError handler does not catch) exactly for 0 to a negative power |
| Wordlist.IntPow | scripts/dict2wordlist.py:78 | the integer power of `pow`: 1 for exponent 0, the base for exponent 1, and never 0 for a non-zero base |
| Wordlist.IntPowAdd | scripts/dict2wordlist.py:78 | powers multiply by adding exponents: b^(m+n) = b^m * b^n |
| Wordlist.PowerInverse | scripts/dict2wordlist.py:76-79 | a negative power is the reciprocal of the positive one: b^-e * b^e = 1 |
| Wordlist.ParsePower | scripts/dict2wordlist.py:67-79 | a value "b^e" without '/' whose halves `int` reads as b and e is read as `Power(b, e)`: its value when it succeeds (the integer b^e for e >= 0), its error otherwise |
| Wordlist.NumberOf | scripts/dict2wordlist.py:75-83 | the `try` block on the rewritten text: power notation as `ParsePower` states, other text as `float` reads it, and text that is not a number gives None, as `NotANumber` states |
| Wordlist.NotANumber | scripts/dict2wordlist.py:80-83 | a value without '^' whose stripped text holds, past its first character, anything but digits and '.' is not a number and gives None |
| CandidateConstraints.ParseDecimal | scripts/buildutil.py:615 | `float` on the text of a syllable limit; `ParseWholeNumber`, `ParseFraction` and `ParseSignedFraction` state what it reads, `ParseDecimalChars` what it rejects |
| CandidateConstraints.ParseFraction | scripts/buildutil.py:612-615 | a fractional limit such as "2.5" is read with its fraction |
| CandidateConstraints.ParseSignedFraction | scripts/buildutil.py:615 | a sign may lead and the integer part may be missing: "-.5" reads as -0.5 |
| CandidateConstraints.ParseDecimalChars | scripts/dict2wordlist.py:80 | the `float` reading fails on such a character |
| Wordlist.FromEntry | scripts/dict2wordlist.py:86-99 | the translation defaults to '???', the word to '', and the gloss is the field when present |
| Wordlist.Render | scripts/dict2wordlist.py:101-116 | `WordInfo.__str__`; the lemmas below state that the line starts with the word and its translation and shows the classes, the gloss and the sources exactly when the source does |
| Wordlist.ClassesShownWhenSeveral | scripts/dict2wordlist.py:103-108 | the class list is rendered exactly when the word has more than one class |
| Wordlist.GlossShownWhenMarked | scripts/dict2wordlist.py:110-113 | the gloss is rendered exactly when it holds '+' or starts with '=' |
| Wordlist.SourcesShownWhenPresent | scripts/dict2wordlist.py:115 | the sources are rendered exactly when `infl` is non-empty |
| Wordlist.RenderStartsWithWord | scripts/dict2wordlist.py:116 | every line starts with "  * **word** – translation" |
| Wordlist.SortByValueSorted | scripts/dict2wordlist.py:151-154 | the sort orders the words by value, words without one last |
| Wordlist.SortByValuePermutes | scripts/dict2wordlist.py:151-154 | the sort keeps every word (a permutation) |
| Wordlist.SortByValueStable | scripts/dict2wordlist.py:151-154 | the sort keeps the words of equal value, and those without one, in their order |
| Wordlist.PrintOrder | scripts/dict2wordlist.py:150-160 | the order `print_group` prints a group in; `PrintOrderMeaning` states that it keeps the words, and sorts them stably by value only when the first word has one |
| Wordlist.PrintOrderMeaning | scripts/dict2wordlist.py:150-160 | `print_group` keeps the group's words; it leaves their order alone unless the first word has a value, and then sorts them by value, stably |
| Wordlist.ConvertedOk | scripts/dict2wordlist.py:174-176 | an entry joins a group exactly when `from_entry` succeeds and it has a word class (`classes[0]` raises IndexError otherwise) |
| Wordlist.ConvertsContents | scripts/dict2wordlist.py:173-176 | the conversion succeeds exactly when every entry converts, and then lists their words in order; otherwise it stops with the first entry's error |
| Wordlist.ConvertsFailsAt | scripts/dict2wordlist.py:173-176 | once an entry fails, the whole run fails with that entry's error |
| Wordlist.MembersOf | scripts/dict2wordlist.py:176 | a word is in the list of class c exactly when it is one of the words and c is its first class |
| Wordlist.ClassDictContents | scripts/dict2wordlist.py:171-176 | `class_dict` holds exactly the classes that occur first, each with its words in order |
| Wordlist.ConvertEntry | scripts/dict2wordlist.py:174-176 | one entry's conversion, with a word class when it succeeds |
| Wordlist.GroupByClass | scripts/dict2wordlist.py:171-176 | the first loop stops at the first failing entry with its error, or builds `class_dict` and its key order from all the words |
| Wordlist.AddToClass | scripts/dict2wordlist.py:176 | appending a word to its first class's list extends `class_dict` by that word |
| Wordlist.PrintKnownClasses | scripts/dict2wordlist.py:179-182 | the GROUP_ORDER loop prints a group for each class of GROUP_ORDER that has words, in that order, and pops those classes |
| Wordlist.PrintLeftoverClasses | scripts/dict2wordlist.py:185-187 | the last loop prints the classes left in `class_dict`, sorted |
| Wordlist.Wordlist | scripts/dict2wordlist.py:162-187 | what `create_wordlist` prints or the error it stops with; `ListingOutcome`, `ListingPartition`, `ListingOrder` and `ListingContents` state its outcome, grouping and order |
| Wordlist.CreateWordlist | scripts/dict2wordlist.py:162-187 | the three loops compute `Wordlist(entries, lang, p)` |
| Wordlist.GroupsForShape | scripts/dict2wordlist.py:179-187 | each printed group is a listed class that has words, under its looked-up header, with `print_group`'s order of its words |
| Wordlist.GroupsForCovers | scripts/dict2wordlist.py:179-187 | every listed class that has words gets a group |
| Wordlist.GroupsForExact | scripts/dict2wordlist.py:179-187 | when every listed class has words, there is one group per class, in the listed order |
| Wordlist.GroupsForRanks | scripts/dict2wordlist.py:179-187 | the groups follow the order of a list of distinct classes |
| Wordlist.LeftoverClassesShape | scripts/dict2wordlist.py:185 | the left-over classes are those that occur first but are not in GROUP_ORDER, each once, in increasing order |
| Wordlist.ListingContents | scripts/dict2wordlist.py:138-160 | each group holds exactly the words whose first class is its class, none left out and none added, under its looked-up header |
| Wordlist.ListingCovers | scripts/dict2wordlist.py:173-187 | a class gets a group exactly when some word has it as its first class |
| Wordlist.ListingOrder | scripts/dict2wordlist.py:179-187 | the classes of GROUP_ORDER come first in that order, then the others alphabetically, and no class has two groups |
| Wordlist.ListingPartition | scripts/dict2wordlist.py:173-187 | each word is printed in exactly one group, that of its first class |
| Wordlist.WordlistGroups | scripts/dict2wordlist.py:179-187 | with GROUP_ORDER: the groups are ordered as above, and each word is in the group of its first class only |
| Wordlist.ListingOutcome | scripts/dict2wordlist.py:173-187 | the word list is printed when every entry converts, with the words in dictionary order; otherwise it stops with the first failing entry's error |
| Wiktionary.CleanWordIsClean | scripts/parsewikt.py:98-99 | after the translation table, a word holds no ';', '[' or ']' |
| Wiktionary.CleanIpaIsClean | scripts/parsewikt.py:104-105 | after removing ';', '[', ']' and '/', a transcription holds none of them |
| Wiktionary.Created | scripts/parsewikt.py:88-108 | a new translation has exactly one clean word, its own word set, and '' for a missing romanisation or transcription |
| Wiktionary.CreatedKeepsCleanWord | scripts/parsewikt.py:96-99 | a word without ';' or brackets is stored unchanged |
| Wiktionary.Merged | scripts/parsewikt.py:110-124 | merging fails exactly for another language; a translation whose word set already holds the other's is returned unchanged; otherwise word, romanisation and IPA lists get the other's appended and the word set becomes the union; consistency and cleanliness are kept |
| Wiktionary.MergeIdempotent | scripts/parsewikt.py:115-119 | merging a translation with itself, or merging the same translation twice, changes nothing more |
| Wiktionary.Entries | scripts/parsewikt.py:126-146 | one serialised entry per word |
| Wiktionary.EntryReadsBack | scripts/parsewikt.py:134-145 | an entry splits at '[' back into the word and its bracketed romanisation or transcription |
| Wiktionary.Serialized | scripts/parsewikt.py:126-146 | `Translation.__str__`; `SerializedReadsBack` states that the text splits at "; " into entries that read back as each word and its extra |
| Wiktionary.SerializedReadsBack | scripts/parsewikt.py:126-146 | a serialised clean translation splits at "; " into its entries, each of which reads back as its word and extra |
| Wiktionary.Translation.Create | scripts/parsewikt.py:88-108 | the new object holds the value `Created` describes |
| Wiktionary.Translation.Merge | scripts/parsewikt.py:110-124 | the object takes the merged value, or stays as it was and reports the error for another language |
| Wiktionary.Translation.Serialize | scripts/parsewikt.py:126-146 | returns the serialised text whose read-back `SerializedReadsBack` proves |
| Wiktionary.AddedTrans | scripts/parsewikt.py:161-173 | a translation is merged into the one for its code or filed as a new one and counted; no other code changes; an English translation refreshes the lower-cased English word |
| Wiktionary.Filtered | scripts/parsewikt.py:175-178 | only the listed codes stay, their translations unchanged, and the translation count is not reduced |
| Wiktionary.PutCodesAt | scripts/parsewikt.py:188-194 | each code put so far maps to its serialised translation and every other key keeps its value |
| Wiktionary.PutCodesKeys | scripts/parsewikt.py:188-194 | new distinct codes are appended to the key order in sorted order |
| Wiktionary.TermDictContents | scripts/parsewikt.py:180-196 | the dictionary lists class, sense and count first, then each code in sorted order with its serialised translation |
| Wiktionary.PutTranslations | scripts/parsewikt.py:188-194 | the loop stores every translation in the order of the codes |
| Wiktionary.Term.constructor | scripts/parsewikt.py:147-160 | a new term has no translations and a count of zero |
| Wiktionary.Term.AddTrans | scripts/parsewikt.py:161-173 | the term takes the value `AddedTrans` describes |
| Wiktionary.Term.FilterTrans | scripts/parsewikt.py:175-178 | the term takes the value `Filtered` describes |
| Wiktionary.Term.ToDict | scripts/parsewikt.py:180-196 | returns the dictionary `TermDictContents` describes |
| Wiktionary.CodeOf | scripts/parsewikt.py:239-269 | a language without a code becomes "mis"; an explicit code other than en and zh is kept; a known language name gives its code; Chinese tagged or named Mandarin becomes "cmn"; it fails exactly when a Chinese entry without a Mandarin tag has no language name |
| Wiktionary.Bump | scripts/parsewikt.py:258 | a Counter increment: the key's count goes up by one and nothing else changes |
| Wiktionary.CodeFinder.constructor | scripts/parsewikt.py:201-237 | the language table is stored and no unknown language has been counted |
| Wiktionary.CodeFinder.GetCode | scripts/parsewikt.py:239-269 | returns `CodeOf` and counts the language name exactly when no code was found |
| Wiktionary.OtherSkipRules | scripts/parsewikt.py:270-334 | the rules of `skip_trans` other than the "disused" test; `FirstOfLanguageKept`, `TaggedSkipped` and `RegionalScriptsSkipped` state what they keep and skip |
| Wiktionary.SkipTransAsWritten | scripts/parsewikt.py:270-334 | `skip_trans` as written, with the "disused:" test outside the Spanish condition; `DisusedSkipsAnyLanguage` shows it skipping a French word |
| Wiktionary.SkipTrans | scripts/parsewikt.py:270-334 | `skip_trans` with the "disused:" test for Spanish only; `FirstOfLanguageKept`, `TaggedSkipped`, `RegionalScriptsSkipped` and `SkipVersionsAgree` state what it skips |
| Wiktionary.DisusedSkipsAnyLanguage | scripts/parsewikt.py:317-319 | as written, a French word starting with "disused:" is skipped, while the Spanish-only rule keeps it |
| Wiktionary.FirstOfLanguageKept | scripts/parsewikt.py:270-334 | the first translation of a language other than German, Spanish, Javanese, Korean and Malay is never skipped |
| Wiktionary.TaggedSkipped | scripts/parsewikt.py:301-303 | a flagged tag skips any further translation of a language that already has one |
| Wiktionary.RegionalScriptsSkipped | scripts/parsewikt.py:330-333 | North Korean and Jawi translations are always skipped |
| Wiktionary.SkipVersionsAgree | scripts/parsewikt.py:317-319 | the Spanish-only skip rule skips less than the code as written, and they differ only on non-Spanish words starting with "disused:" |
| Wiktionary.FirstWanted | scripts/parsewikt.py:374-386 | the index of the first transcription (US when asked) at or after the start, with none wanted before it |
| Wiktionary.EnIpa | scripts/parsewikt.py:366-393 | the very first transcription or the first US one; none exactly when no sound has a transcription; the very first one for a word without 'r' or when no US one exists |
| Wiktionary.RhoticUsPreferred | scripts/parsewikt.py:387-392 | a US transcription that alone renders the 'r' as 'ɹ' wins over the very first one |
| Wiktionary.FindEnIpa | scripts/parsewikt.py:366-393 | the loop returns `EnIpa` |
| LanguageList.FindFromSkip | scripts/parselanguagelist.py:113 | `str.find` from a later start finds the same occurrence when none begins in between |
| LanguageList.FindFromShift | scripts/parselanguagelist.py:113 | searching a concatenation from inside its second part is searching that part, shifted |
| LanguageList.BoundsAsWritten | scripts/parselanguagelist.py:112-116 | as written, the slice bounds lie inside the text, with the fragment empty when the end marker is found inside the start marker |
| LanguageList.Bounds | scripts/parselanguagelist.py:112-116 | the fragment begins after the first start marker and ends at the first end marker after it, inside the text |
| LanguageList.StripKeeps | scripts/parselanguagelist.py:116-118 | a text without surrounding whitespace is not changed by stripping |
| LanguageList.StripIdempotent | scripts/parselanguagelist.py:116-118 | stripping twice is stripping once |
| LanguageList.Fragment | scripts/parselanguagelist.py:88-120 | `_find_fragment` as documented, the end marker searched after the start marker; `FragmentAt`, `FragmentOfBounds`, `FragmentMissing` and `Delimited` state what it returns |
| LanguageList.FragmentAt | scripts/parselanguagelist.py:88-120 | the fragment is the stripped text between the first start marker and the first end marker after it, with the stripped rest |
| LanguageList.BoundsOf | scripts/parselanguagelist.py:112-116 | the bounds are the end of the first start marker and the first end marker after it |
| LanguageList.FragmentOfBounds | scripts/parselanguagelist.py:116-119 | the fragment and rest are the stripped slices at the bounds |
| LanguageList.FragmentMissing | scripts/parselanguagelist.py:114-115 | without a start marker, or without an end marker after it, there is no fragment |
| LanguageList.Delimited | scripts/parselanguagelist.py:88-120 | a text built as before, start, middle, end, after gives the middle and the after part, both stripped |
| LanguageList.DelimitedBounds | scripts/parselanguagelist.py:112-116 | on such a text the bounds are those of the middle part |
| LanguageList.DelimitedStart | scripts/parselanguagelist.py:112 | on such a text the start marker is found right after the before part |
| LanguageList.DelimitedEnd | scripts/parselanguagelist.py:113 | on such a text the end marker is found right after the middle part |
| LanguageList.FragmentsAgree | scripts/parselanguagelist.py:112-120 | when the end marker cannot begin inside the start marker, the code as written and the documented behaviour agree |
| LanguageList.EndNotInsideStart | scripts/parselanguagelist.py:113 | such an end marker never occurs inside the start marker |
| LanguageList.SameSearch | scripts/parselanguagelist.py:113 | when searching from the start marker finds what searching after it finds, both versions agree |
| LanguageList.FragmentAsWritten | scripts/parselanguagelist.py:112-119 | `_find_fragment` as written, the end marker searched from where the start marker begins; `AsWrittenAt`, `SameMarkerAsWritten` and `FragmentOverlap` state where it departs from `Fragment`, `FragmentsAgree` where it agrees |
| LanguageList.AsWrittenAt | scripts/parselanguagelist.py:113-119 | an end marker found inside the start marker gives an empty fragment and the rest after that end marker |
| LanguageList.BoundsAsWrittenAt | scripts/parselanguagelist.py:113-116 | in that case both bounds are the position of that end marker |
| LanguageList.AsWrittenOfBounds | scripts/parselanguagelist.py:116-119 | the code as written also cuts the stripped slices at its bounds |
| LanguageList.StripPairEmpty | scripts/parselanguagelist.py:116-118 | an empty fragment stays empty and the rest is stripped |
| LanguageList.SameMarkerAsWritten | scripts/parselanguagelist.py:112-119 | with one character as both markers, the code as written always gives an empty fragment and the whole text after the first marker |
| LanguageList.FragmentOverlap | scripts/parselanguagelist.py:113 | on "a-b-c" with '-' as both markers the code as written gives ('', 'b-c') where the documented behaviour gives ('b', 'c') |
| LanguageList.FirstWikilink | scripts/parselanguagelist.py:123-144 | `_find_first_wikilink`; `WikilinkPiped`, `WikilinkPlain` and `NoWikilink` state its text, link and rest for a piped link, a plain link and no link |
| LanguageList.WikilinkPiped | scripts/parselanguagelist.py:123-144 | a link written with a bar between link and text gives the text, the link and the stripped rest |
| LanguageList.FragmentPiped | scripts/parselanguagelist.py:139 | the fragment of such a link is the link, the bar and the text |
| LanguageList.PipeSplit | scripts/parselanguagelist.py:141 | link, bar and text split at the bar into the link and the text |
| LanguageList.PipedLink | scripts/parselanguagelist.py:140-141 | a fragment with exactly one bar gives the part after it as text and the part before it as link |
| LanguageList.WikilinkPlain | scripts/parselanguagelist.py:142-144 | "[[text]]" gives the text, no link and the stripped rest |
| LanguageList.NoWikilink | scripts/parselanguagelist.py:139-144 | a text without "[[" gives no text, no link and no rest |
| LanguageList.SplitFirstLine | scripts/parselanguagelist.py:147-152 | one or two parts, the first without a line break, which joined by a line break give back the stripped text |
| LanguageList.ToRow | scripts/parselanguagelist.py:76-83 | six fields like the header; the branch shows '–' exactly when it is missing or empty, the script '' exactly when it is missing or empty |
| LanguageList.SplitFirstWord | scripts/parselanguagelist.py:415 | `split(maxsplit=1)` gives at most two parts |
| LanguageList.PostprocessLang | scripts/parselanguagelist.py:409-422 | only the name can change, and only when it has two words and the first is "Standard" or "Iranian" |
| LanguageList.NonSpaceRunAll | scripts/parselanguagelist.py:415 | a word without whitespace is one run |
| LanguageList.FirstWordOf | scripts/parselanguagelist.py:415 | a word, a space and a remainder split into the word and the remainder |
| LanguageList.NonSpaceRunPrefix | scripts/parselanguagelist.py:415 | the first run ends at the first whitespace |
| LanguageList.PrefixDropped | scripts/parselanguagelist.py:417-419 | "Standard German" becomes "German", "Iranian Persian" becomes "Persian" |
| LanguageList.OneWordKept | scripts/parselanguagelist.py:417 | a one-word name, "Standard" included, is left alone |
| LanguageList.Prepared | scripts/parselanguagelist.py:340-348 | the 639-3 code is replaced by its 639-1 code when one exists, and the script is set when it is known for that code |
| LanguageList.HandledPlain | scripts/parselanguagelist.py:350-374 | unless a language names such a variety as related, no Arabic or Punjabi name is ever marked as handled |
| LanguageList.FoldStep | scripts/parselanguagelist.py:352-369 | one more Arabic or Punjabi name creates or grows the folded entry by its speakers |
| LanguageList.CombineFoldsVarieties | scripts/parselanguagelist.py:352-369 | all names containing 'Arabic' fold into one "Arabic"/'ar' entry, and those containing 'Punjabi' into one "Punjabi"/'pa' entry, with summed speakers, existing exactly when such a name occurs |
| LanguageList.CombineOne | scripts/parselanguagelist.py:338-400 | the loop body takes the step `CombineStep` describes |
| LanguageList.CombinePlain | scripts/parselanguagelist.py:370-400 | a plain language is combined with its listed related language or with Malay, or added as it is |
| LanguageList.CombineRelated | scripts/parselanguagelist.py:320-407 | the result is the combined set over the names in sorted order |
| LanguageList.CombineNames | scripts/parselanguagelist.py:338-407 | the loop over any order of listed names gives the combined set after all of them |
| LanguageList.RankedTransitive | scripts/parselanguagelist.py:449-450 | the order by descending speakers, then name, is transitive |
| LanguageList.FirstExists | scripts/parselanguagelist.py:449-450 | a non-empty set has a first language in that order |
| LanguageList.OrderLanguages | scripts/parselanguagelist.py:449-450 | every language exactly once, by descending speakers, then name |
| LanguageList.MainCount | scripts/parselanguagelist.py:451-457 | the main list holds the first two languages of each subfamily, never more |
| LanguageList.CountInAppend | scripts/parselanguagelist.py:453 | subfamily counts add up over concatenation |
| LanguageList.SplitPartitions | scripts/parselanguagelist.py:451-457 | every language lands in exactly one of the two lists |
| LanguageList.CountInMonotone | scripts/parselanguagelist.py:453 | a prefix has no more languages of a subfamily than the whole |
| LanguageList.RestFull | scripts/parselanguagelist.py:453-457 | a language in the rest list has two languages of its subfamily in the main list |
| LanguageList.MainBelongs | scripts/parselanguagelist.py:451-457 | both lists hold only languages of the input |
| LanguageList.RankedAll | scripts/parselanguagelist.py:449-450 | in a ranked list every earlier language ranks before every later one |
| LanguageList.AppendRanked | scripts/parselanguagelist.py:454-457 | appending a language ranked after all earlier ones keeps a list ranked |
| LanguageList.PrefixBeforeLast | scripts/parselanguagelist.py:449-450 | in a ranked list every language ranks before the last |
| LanguageList.SplitKeepsRank | scripts/parselanguagelist.py:449-457 | both lists keep the rank order |
| LanguageList.SplitBySubfamily | scripts/parselanguagelist.py:451-457 | the loop builds the main list and the rest list described by `MainOf` and `RestOf` |
| LanguageList.ParseLanguageList | scripts/parselanguagelist.py:435-461 | both lists are ranked, together they hold every combined and shortened language once, the main list has at most two per subfamily, and each language in the rest has two of its subfamily in the main list |
| WalsFreq.ParseRowSpec | scripts/walsfeaturefreq.py:98-116 | a row fails to unpack exactly when its code has a '/' and its name has none; a pair is split at the first '/' of both code and name |
| WalsFreq.Apply | scripts/walsfeaturefreq.py:100-119 | one row of `_read_sourcelangs_file` registered; `ApplyPositions`, `ApplyFallbacks`, `ApplyNames` and `AlignedStep` state its positions, fallbacks and names |
| WalsFreq.ApplyPositions | scripts/walsfeaturefreq.py:100-119 | every code of a row gets the row's position and other positions stay |
| WalsFreq.ApplyFallbacks | scripts/walsfeaturefreq.py:100-119 | the fallbacks a row adds are its own codes and point to its own main code; other fallbacks stay |
| WalsFreq.ApplyNames | scripts/walsfeaturefreq.py:107-114 | a pair names its main and fallback codes with the two halves of its name, a single code gets the whole name |
| WalsFreq.SourceLangsOf | scripts/walsfeaturefreq.py:80-124 | reading succeeds exactly when every row unpacks, and then 'ar' is named "Standard Arabic" |
| WalsFreq.OkRows | scripts/walsfeaturefreq.py:97-119 | reading fails exactly when some row fails to unpack |
| WalsFreq.PositionsInRange | scripts/walsfeaturefreq.py:97 | positions count rows from 1 up to the number of rows |
| WalsFreq.KeysOfRows | scripts/walsfeaturefreq.py:97-119 | a code has a position exactly when one of the rows registers it, as a code, a fallback or an extra fallback |
| WalsFreq.AlignedStep | scripts/walsfeaturefreq.py:100-119 | a row with fresh codes keeps every fallback at the position of its main language |
| WalsFreq.FallbacksAligned | scripts/walsfeaturefreq.py:100-119 | when no two rows register the same code, each fallback has the same position as its main language, which is listed |
| WalsFreq.ReadSourceLangs | scripts/walsfeaturefreq.py:80-124 | the loop over the rows gives `SourceLangsOf` |
| WalsFreq.ErrStays | scripts/walsfeaturefreq.py:97-119 | once a row fails, reading stays failed with that error |
| WalsFreq.Iso3To1Keys | scripts/walsfeaturefreq.py:126-141 | a 639-3 code is mapped exactly when some row has it with a 639-1 code, and to the last such row's code |
| WalsFreq.FillIso3To1 | scripts/walsfeaturefreq.py:126-141 | the loop over the rows gives the map `Iso3To1Keys` describes |
| WalsFreq.GroupedMembers | scripts/walsfeaturefreq.py:236-247 | a language is listed under a value exactly when a kept entry of it has that value; no value has an empty set |
| WalsFreq.CountedAdds | scripts/walsfeaturefreq.py:247 | each kept entry adds one to its language's count, and nothing else changes a count |
| WalsFreq.FallbackDropped | scripts/walsfeaturefreq.py:240-244 | a fallback's entry is dropped exactly when its main language has an entry too |
| WalsFreq.FeatureFreqFinder.constructor | scripts/walsfeaturefreq.py:45-55 | the finder holds the positions, fallbacks and names read, and an empty language counter |
| WalsFreq.FeatureFreqFinder.SourceSet | scripts/walsfeaturefreq.py:71-77 | all source codes, or exactly those that are not fallbacks |
| WalsFreq.FeatureFreqFinder.GroupFeatureValues | scripts/walsfeaturefreq.py:221-248 | returns the grouping `GroupedMembers` describes and bumps the counter as `CountedAdds` describes; nothing else changes |
| WalsFreq.MinOver | scripts/walsfeaturefreq.py:256 | the minimum of the positions of a non-empty list of languages |
| WalsFreq.SmallestPosition | scripts/walsfeaturefreq.py:250-256 | the position of some language of the set, and no language has a smaller one |
| WalsFreq.SortKeys | scripts/walsfeaturefreq.py:278-281 | each value's key is its non-zero number of languages and its best position |
| WalsFreq.FirstKeyExists | scripts/walsfeaturefreq.py:278-281 | a non-empty set of values has a first value in key order |
| WalsFreq.OrderValues | scripts/walsfeaturefreq.py:278-281 | every value exactly once, by descending language count, then by best position |
| WalsFreq.OrderedCounts | scripts/walsfeaturefreq.py:278-281 | no value has more languages than the first |
| WalsFreq.RelFrequencies | scripts/walsfeaturefreq.py:278-286 | the first value written gets 100 per cent and no value more |
| WalsFreq.RelFrequencyAtMost | scripts/walsfeaturefreq.py:286 | a count of at most the maximum gives at most 100 per cent, and the maximum gives exactly 100 |
| WalsCheck.RoundHalfEven | scripts/checkwalsfeatures.py:131 | Python's `round` of the exact quotient: the nearest whole number, ties to the even one |
| WalsCheck.RoundTop | scripts/checkwalsfeatures.py:129-131 | the top count gets a relative frequency of 100 |
| WalsCheck.RoundBelowTop | scripts/checkwalsfeatures.py:129-131 | a count no higher than the top count gets at most 100 |
| WalsCheck.SortByCountDesc | scripts/checkwalsfeatures.py:125 | the sort by language count, highest first, is a permutation of its input and non-increasing |
| WalsCheck.InsertDescKeeps | scripts/checkwalsfeatures.py:125 | inserting the last value into the sorted rest gives a sorted permutation of the whole |
| WalsCheck.InsertDescPerm | scripts/checkwalsfeatures.py:125 | insertion adds exactly the inserted value |
| WalsCheck.InsertDescSorted | scripts/checkwalsfeatures.py:125 | insertion into a sorted list keeps it sorted and adds one value |
| WalsCheck.WithCountAppend | scripts/checkwalsfeatures.py:125 | the values of one count in an extended list are those before plus the new one if it has that count |
| WalsCheck.WithCountNone | scripts/checkwalsfeatures.py:125 | a list whose counts are all lower has no value of that count |
| WalsCheck.InsertDescStable | scripts/checkwalsfeatures.py:125 | insertion puts a value after the values of its own count |
| WalsCheck.SortStable | scripts/checkwalsfeatures.py:125 | the sort is stable: the values of each count keep their order |
| WalsCheck.InsertDescAtEnd | scripts/checkwalsfeatures.py:125 | a value with the lowest count is inserted at the end |
| WalsCheck.SortSorted | scripts/checkwalsfeatures.py:123-125 | values already in order are left as they are |
| WalsCheck.Completeness | scripts/checkwalsfeatures.py:48-98 | the report of `_check_feature_completeness_and_consistency`; `CompleteIffExactlyOnce` states when it is clear |
| WalsCheck.Problems | scripts/checkwalsfeatures.py:79-98 | languages counted at least twice are repeated, unlisted source languages missing, listed non-source languages spurious |
| WalsCheck.CompleteIffExactlyOnce | scripts/checkwalsfeatures.py:48-98 | a feature passes exactly when every source language is counted once and no other language is counted |
| WalsCheck.MovedCounts | scripts/checkwalsfeatures.py:73-77 | moving fallback counts leaves unrelated languages alone and, when no fallback is also a main language, leaves no fallback counted |
| WalsCheck.MovedKeeps | scripts/checkwalsfeatures.py:73-77 | a language that is neither fallback nor main language keeps its count |
| WalsCheck.MovedEmptied | scripts/checkwalsfeatures.py:73-77 | a fallback that is no main language ends with a count of zero |
| WalsCheck.Recounted | scripts/checkwalsfeatures.py:114-118 | each value's count becomes its number of languages and nothing else changes |
| WalsCheck.WithFrequencies | scripts/checkwalsfeatures.py:128-131 | each value's relative frequency becomes its rounded share of the top count and nothing else changes |
| WalsCheck.Ordered | scripts/checkwalsfeatures.py:114-125 | the recounted values, each with its true count, reordered only |
| WalsCheck.CountWrongIff | scripts/checkwalsfeatures.py:114-118 | the loop notes a change exactly when some value's count differs from its number of languages |
| WalsCheck.OutOfOrderIff | scripts/checkwalsfeatures.py:111-121 | the loop finds the values out of order exactly when their numbers of languages rise somewhere or the first exceeds 1000000 |
| WalsCheck.OrderedSorted | scripts/checkwalsfeatures.py:119-125 | after the optional sort the values run from the most languages down |
| WalsCheck.OrderedLists | scripts/checkwalsfeatures.py:114-125 | recounting and sorting keep the languages lists |
| WalsCheck.Corrected | scripts/checkwalsfeatures.py:100-135 | `_correct_feature_counts` on a feature's values; `CorrectedFacts` and `CorrectionSettles` state the result and that a second correction changes nothing |
| WalsCheck.CorrectedFacts | scripts/checkwalsfeatures.py:100-135 | after a correction every count is true, the values are in order, the first has 100 and none more, and the languages lists are those of before |
| WalsCheck.LanguageLists | scripts/checkwalsfeatures.py:114-115 | the languages lists of the values, in order |
| WalsCheck.ListsOfRecounted | scripts/checkwalsfeatures.py:114-118 | recounting keeps the languages lists |
| WalsCheck.ListsOfFrequencies | scripts/checkwalsfeatures.py:130-131 | new relative frequencies keep the languages lists |
| WalsCheck.ListsOfInsert | scripts/checkwalsfeatures.py:125 | insertion adds one languages list |
| WalsCheck.ListsOfSorted | scripts/checkwalsfeatures.py:125 | sorting moves whole values, languages lists and all |
| WalsCheck.CorrectionSettles | scripts/checkwalsfeatures.py:100-135 | a second correction right after one that changed something changes nothing |
| WalsCheck.ValueSetIff | scripts/checkwalsfeatures.py:148-164 | a language is collected for a value exactly when some entry with that value lists it |
| WalsCheck.OtherSetIff | scripts/checkwalsfeatures.py:154-155 | a language is collected as "other" exactly when an entry with a value other than 4 and 5 lists it |
| WalsCheck.ArticleCheck | scripts/checkwalsfeatures.py:137-184 | the findings of `_check_consistency_between_article_features`; `ArticlesAgreeIff` and `NeitherIdentical` state when a language is reported |
| WalsCheck.NeitherIdentical | scripts/checkwalsfeatures.py:166-171 | when 37A and 38A list the same languages for value 5, no language is reported as listed once |
| WalsCheck.ArticlesAgreeIff | scripts/checkwalsfeatures.py:173-184 | a definite-only language of 38A is reported exactly when 37A gives it no definite article; likewise for indefinite articles |
| WalsCheck.Label | scripts/checkwalsfeatures.py:206-218 | every language's label holds a '/' |
| WalsCheck.NameFirstLabels | scripts/checkwalsfeatures.py:207-208 | the inner loop labels each of its languages with the value's name and keeps the others |
| WalsCheck.FirstSidesLabels | scripts/checkwalsfeatures.py:206-208 | after the first loop, a language is labelled exactly when the first feature lists it, with the last value's name listing it |
| WalsCheck.NameSecondHas | scripts/checkwalsfeatures.py:211-213 | the inner loop of the second loop labels exactly the languages labelled before or listed now |
| WalsCheck.NameSecondValue | scripts/checkwalsfeatures.py:211-213 | each listing appends '/' and the name to the label, or to '???' for an unlabelled language |
| WalsCheck.NameSecondMiss | scripts/checkwalsfeatures.py:211-213 | a step for another language keeps a language's label |
| WalsCheck.NameSecondHit | scripts/checkwalsfeatures.py:211-213 | a step for the language appends '/' and the name once more |
| WalsCheck.SuffixAbsent | scripts/checkwalsfeatures.py:210-213 | a language the second feature does not list gets nothing appended |
| WalsCheck.AddSecondsHas | scripts/checkwalsfeatures.py:210-213 | after the second loop a language is labelled exactly when it was before or the second feature lists it |
| WalsCheck.AddSecondsValue | scripts/checkwalsfeatures.py:210-213 | after the second loop a label is the first part, or '???', followed by '/' and a name for each listing in the second feature |
| WalsCheck.AppearsStep | scripts/checkwalsfeatures.py:210-211 | a language appears in the first n values exactly when it appears in the first n-1 or in value n |
| WalsCheck.BaseSuffixStep | scripts/checkwalsfeatures.py:210-213 | one more value of the second feature extends the suffix of each language it lists |
| WalsCheck.CombinedNamesLabels | scripts/checkwalsfeatures.py:203-218 | the three loops label exactly the languages either feature lists, each with its "A/B" label, '???' for a missing side |
| WalsCheck.FindName | scripts/checkwalsfeatures.py:227 | the first value with a given name, or none when no value has it |
| WalsCheck.IndexOf | scripts/checkwalsfeatures.py:222 | the first index of an element, or none when absent |
| WalsCheck.CrossSorted | scripts/checkwalsfeatures.py:239-243 | the grouped values recounted and sorted from the most languages down, each listing a language |
| WalsCheck.GroupedAllListed | scripts/checkwalsfeatures.py:226-234 | every grouped value lists a language |
| WalsCheck.RecountedSorted | scripts/checkwalsfeatures.py:239-243 | a reordering of recounted non-empty values keeps their number and their true counts |
| WalsCheck.GroupedShape | scripts/checkwalsfeatures.py:221-234 | the grouping loop makes one value per label, each of the new feature, numbered by its label's place among the sorted labels and listing a language |
| WalsCheck.GroupedFields | scripts/checkwalsfeatures.py:226-234 | each grouped value has the new feature and its label's number |
| WalsCheck.GroupedNames | scripts/checkwalsfeatures.py:226-234 | the grouped values have distinct names, exactly the labels seen |
| WalsCheck.LangsNamedEmpty | scripts/checkwalsfeatures.py:226-234 | no language carries a label not seen |
| WalsCheck.GroupedLanguages | scripts/checkwalsfeatures.py:226-234 | each grouped value lists, in order, exactly the languages with its label |
| WalsCheck.LangsNamedMembers | scripts/checkwalsfeatures.py:226-234 | the languages with a label are exactly those seen with it |
| WalsCheck.DistinctPerm | scripts/checkwalsfeatures.py:243 | reordering values keeps their names distinct |
| WalsCheck.SortedFrom | scripts/checkwalsfeatures.py:239-243 | each sorted value is a grouped value with its true count |
| WalsCheck.CrossCombined | scripts/checkwalsfeatures.py:199-248 | the cross-combination of two features, or none when it is empty; `CrossNone`, `CrossLanguages`, `CrossNames` and `CrossCounts` state its values |
| WalsCheck.CrossNone | scripts/checkwalsfeatures.py:246 | the combination fails, on an empty list, exactly when no language has a label |
| WalsCheck.CrossLanguages | scripts/checkwalsfeatures.py:221-243 | each combined value lists exactly the languages with its label, belongs to the new feature and is numbered from 1 in the labels' sorted order |
| WalsCheck.CrossValue | scripts/checkwalsfeatures.py:221-243 | one combined value, as `CrossLanguages` states it for all |
| WalsCheck.GroupedValueAt | scripts/checkwalsfeatures.py:221-234 | one grouped value, as `CrossLanguages` states it for all |
| WalsCheck.CrossNames | scripts/checkwalsfeatures.py:221-243 | the combined values have distinct names and every label is one of them, so each language is in exactly one value |
| WalsCheck.CrossSortedDistinct | scripts/checkwalsfeatures.py:243 | the sorted values have distinct names |
| WalsCheck.CrossSortedCovers | scripts/checkwalsfeatures.py:226-243 | every label names a sorted value |
| WalsCheck.GroupedAllCovers | scripts/checkwalsfeatures.py:226-234 | every label names a grouped value |
| WalsCheck.CrossCounts | scripts/checkwalsfeatures.py:238-248 | the combined values count their languages, run from the most languages down, the first has 100 and none more |
| WalsCheck.RowResults | scripts/checkwalsfeatures.py:42-43 | one `from_row` result per row |
| WalsCheck.RowResultAt | scripts/checkwalsfeatures.py:43 | the result of a row is `from_row` of it |
| WalsCheck.ParseRow | scripts/checkwalsfeatures.py:43 | `from_row` on one row |
| WalsCheck.FeatureMapsErrIff | scripts/checkwalsfeatures.py:34-46 | reading fails exactly when some row fails to parse |
| WalsCheck.FeatureMapsKeepAll | scripts/checkwalsfeatures.py:42-45 | every value read is in the list of its feature |
| WalsCheck.FeatureMapsShape | scripts/checkwalsfeatures.py:42-45 | every list holds only values of its own feature, each listing a language when every value read does |
| WalsCheck.FeatureMapsValid | scripts/checkwalsfeatures.py:34-46 | every list read holds values of its own feature that list some language |
| WalsCheck.ReadFeatureMaps | scripts/checkwalsfeatures.py:34-46 | the reading loop gives the feature maps or the first row's error |
| WalsCheck.FailsAt | scripts/checkwalsfeatures.py:42-43 | the first row that fails to parse gives the error of reading |
| WalsCheck.FailureStays | scripts/checkwalsfeatures.py:42-43 | once reading has failed, later rows do not change the error |
| WalsCheck.CountLanguages | scripts/checkwalsfeatures.py:68-77 | how often each language is listed, with each fallback's count moved onto its main language |
| WalsCheck.TallyArticles | scripts/checkwalsfeatures.py:148-164 | the languages with value 5 counted, and those with value 4 and with other values collected |
| WalsCheck.RecountLanguages | scripts/checkwalsfeatures.py:109-121 | the loop gives the recounted values and finds exactly the wrong counts and the disorder `CountWrongIff` and `OutOfOrderIff` describe |
| WalsCheck.SetFrequencies | scripts/checkwalsfeatures.py:129-131 | the loop gives the values with their relative frequencies set |
| WalsCheck.CombineNames | scripts/checkwalsfeatures.py:203-218 | the three loops give the labels `CombinedNamesLabels` describes |
| WalsCheck.NameFirsts | scripts/checkwalsfeatures.py:206-208 | the first loop labels each language with its value's name in the first feature |
| WalsCheck.NameSeconds | scripts/checkwalsfeatures.py:210-213 | the second loop appends '/' and the second feature's name to each label, or to '???' |
| WalsCheck.NameSecondOnce | scripts/checkwalsfeatures.py:211-213 | the inner loop over one value's languages |
| WalsCheck.MarkUnnamed | scripts/checkwalsfeatures.py:216-218 | a label without '/' gets '/???' |
| WalsCheck.GroupByName | scripts/checkwalsfeatures.py:220-234 | the grouping loop over the languages in sorted order |
| WalsCheck.GroupLanguages | scripts/checkwalsfeatures.py:226-234 | the grouping loop over a list of languages |
| WalsCheck.GroupedStep | scripts/checkwalsfeatures.py:227-234 | one more language joins the value of its label, or starts a value numbered by its label |
| WalsCheck.Stored | scripts/checkwalsfeatures.py:250-251 | the combination, when there is one, stored under its feature and every other feature kept |
| WalsCheck.CrossCombination | scripts/checkwalsfeatures.py:199-248 | the combination of two features, whose values each list a language |
| WalsCheck.CorrectCounts | scripts/checkwalsfeatures.py:109-131 | the corrected values and whether anything changed, as `CorrectedFacts` describes |
| WalsCheck.WalsChecker.constructor | scripts/checkwalsfeatures.py:24-32 | a checker that has found no problem and changed nothing |
| WalsCheck.WalsChecker.Lookup | scripts/checkwalsfeatures.py:61 | the values of a feature, an empty list stored first for a missing one |
| WalsCheck.WalsChecker.CheckFeatureCompletenessAndConsistency | scripts/checkwalsfeatures.py:48-98 | reports the problems `Problems` lists and clears the all-well flag exactly when there is one, an empty feature included |
| WalsCheck.WalsChecker.CorrectFeatureCounts | scripts/checkwalsfeatures.py:100-135 | stores the corrected values and sets the changed flag when a count was wrong |
| WalsCheck.WalsChecker.CheckConsistencyBetweenArticleFeatures | scripts/checkwalsfeatures.py:137-184 | reports the findings `ArticlesAgreeIff` describes and clears the all-well flag when there is one |
| WalsCheck.WalsChecker.CrossCombine | scripts/checkwalsfeatures.py:186-252 | stores the combination when it differs from the stored one and then sets the changed flag; fails on an empty combination |
| WalsCheck.WalsChecker.StoreCombination | scripts/checkwalsfeatures.py:250-252 | a combination that differs from the stored one replaces it and sets the changed flag |
| WalsCheck.WalsChecker.CheckFeature | scripts/checkwalsfeatures.py:256-258 | one feature checked then corrected: its values become the corrected ones and no other feature changes, all-well survives exactly when it held and the report is clear, and changed is set when it was or the correction changed something |
| WalsCheck.WalsChecker.AddCrossCombination | scripts/checkwalsfeatures.py:260-263 | one cross-combination as `CrossStep` describes it: stored under its feature when it succeeds, and no feature lost |
| WalsCheck.WalsChecker.Check | scripts/checkwalsfeatures.py:254-263 | the new state is `CheckRun` of the old one, whose flags `CheckedFlags` describes; when no combination failed every combined feature is present |
| WalsCheck.WalsChecker.CheckFeatures | scripts/checkwalsfeatures.py:256-258 | the loop over the checked features gives `CheckedUpTo` of the old state |
| WalsCheck.WalsChecker.AddCrossCombinations | scripts/checkwalsfeatures.py:260-263 | the loop over the cross-combinations gives `CrossUpTo` of the old state, stopping at the first failure; when none failed every combined feature is present |
| WalsCheck.CheckedStep | scripts/checkwalsfeatures.py:257-258 | one checked feature: its values corrected, all-well cleared by a report that is not clear, changed set by a correction that changed something |
| WalsCheck.CheckedUpTo | scripts/checkwalsfeatures.py:256-258 | the state after the first n checked features |
| WalsCheck.CrossStep | scripts/checkwalsfeatures.py:261-263 | one cross-combination stored, or failure when it is empty |
| WalsCheck.CrossUpTo | scripts/checkwalsfeatures.py:260-263 | the state after the first n cross-combinations, the first failure ending the run |
| WalsCheck.CheckRun | scripts/checkwalsfeatures.py:254-263 | `check` on a state: checked features, the article check, then the cross-combinations |
| WalsCheck.CheckedUpToMaps | scripts/checkwalsfeatures.py:256-258 | after n checked features each of them holds its corrected values and the others their old ones |
| WalsCheck.CheckedUpToAllWell | scripts/checkwalsfeatures.py:256-258 | after n checked features all-well holds exactly when it held before and every report was clear |
| WalsCheck.CheckedUpToChanged | scripts/checkwalsfeatures.py:256-258 | after n checked features changed is set exactly when it was or some correction changed something |
| WalsCheck.CrossUpToFlags | scripts/checkwalsfeatures.py:260-263 | the cross-combinations leave all-well alone and never clear changed |
| WalsCheck.CrossUpToPresent | scripts/checkwalsfeatures.py:260-263 | no feature is lost, and after a run without failure every combined feature is present |
| WalsCheck.CrossUpToStops | scripts/checkwalsfeatures.py:262-263 | once a cross-combination has failed, the later ones are not made |
| WalsCheck.CrossStepKeys | scripts/checkwalsfeatures.py:261-263 | a cross-combination keeps every feature and, when it succeeds, adds its own |
| WalsCheck.CheckedFlags | scripts/checkwalsfeatures.py:254-263 | all is well after `check` exactly when it was before, every checked feature's report is clear and the article check of the corrected 37A and 38A finds nothing; a correction that changed something sets changed |
| WalsArea.RStripChar | scripts/printwalsarea.py:62 | `rstrip` of one character: a prefix of the text, not ending in that character, with only that character removed |
| WalsArea.StripAll | scripts/printwalsarea.py:60 | one stripped string per part |
| WalsArea.ToRow | scripts/printwalsarea.py:43-46 | six fields: the feature, the value, the name, the sorted languages joined with ", ", the count, and the frequency followed by '%' |
| WalsArea.FromRow | scripts/printwalsarea.py:49-63 | a row of any length but six raises; a row read gives its feature and name and at least one language entry |
| WalsArea.StripLeadingSpace | scripts/printwalsarea.py:60 | a space before a part does not survive stripping |
| WalsArea.WrittenIntEndsInDigit | scripts/printwalsarea.py:46 | stripping '%' from a written frequency gives back the written number |
| WalsArea.WrittenDigits | scripts/printwalsarea.py:46 | a written number is an optional sign and digits ending in a digit |
| WalsArea.Spaced | scripts/printwalsarea.py:60 | one piece per joined part when splitting at ',' |
| WalsArea.JoinSpaced | scripts/printwalsarea.py:45 | text joined with ", " is the pieces joined with "," |
| WalsArea.StripAllCons | scripts/printwalsarea.py:60 | stripping each part distributes over a list |
| WalsArea.NoCommaPrefixed | scripts/printwalsarea.py:60 | comma-free pieces make a comma-free text |
| WalsArea.TrimmedStrip | scripts/printwalsarea.py:60 | a text without surrounding whitespace is unchanged by stripping |
| WalsArea.StripPrefixed | scripts/printwalsarea.py:60 | a trimmed part with at most one space before it strips to itself |
| WalsArea.SpacedNoComma | scripts/printwalsarea.py:60 | the pieces of comma-free parts hold no comma |
| WalsArea.SpacedStripped | scripts/printwalsarea.py:60 | stripping the pieces gives back the trimmed parts |
| WalsArea.SplitJoinedLanguages | scripts/printwalsarea.py:45-60 | splitting "a, b, c" at ',' and stripping gives back the parts when none holds a ',' or surrounding whitespace |
| WalsArea.FromRowFields | scripts/printwalsarea.py:54-63 | a six-field row whose numbers parse gives the value built from its fields |
| WalsArea.WrittenFields | scripts/printwalsarea.py:45-63 | the numbers of a written row read back as the numbers written |
| WalsArea.SortedCodes | scripts/printwalsarea.py:45 | sorting keeps every code, so a property of each code holds after it |
| WalsArea.FromRowToRow | scripts/printwalsarea.py:43-63 | reading back a written row gives the value with its languages sorted, when it has languages and no code holds ',' or surrounding whitespace |
| WalsArea.CalcQuorum | scripts/printwalsarea.py:80-86 | 40 per cent of the source languages, rounded to the nearest whole number |
| WalsArea.FilterFeaturesByQuorum | scripts/printwalsarea.py:185-206 | the loop gives the kept features and the features below the quorum in their order |
| WalsArea.QuorumPartition | scripts/printwalsarea.py:199-206 | each feature is kept exactly when its summed count reaches the quorum and is otherwise recorded with its total; nothing else is in either result |
| WalsArea.QuorumSizes | scripts/printwalsarea.py:199-206 | the two results together have one entry per feature |
| WalsArea.QuorumKept | scripts/printwalsarea.py:201-202 | the kept features are exactly those reaching the quorum |
| WalsArea.QuorumBelow | scripts/printwalsarea.py:203-204 | the recorded features are exactly those below the quorum, with their totals |
| WalsArea.GroupByFrequency | scripts/printwalsarea.py:218-228 | the loop gives the top, frequent and rare groups in order |
| WalsArea.GroupsPartition | scripts/printwalsarea.py:222-228 | every value lands in exactly one group: 100 is top, 50 or more frequent, below 50 rare |
| WalsArea.GroupsCover | scripts/printwalsarea.py:222-228 | the three groups together are the values |
| WalsArea.GroupsSelect | scripts/printwalsarea.py:223-228 | each group holds only values of its frequency range |
| WalsArea.Labels | scripts/printwalsarea.py:271-277 | one label per code |
| WalsArea.LabelsFirstMention | scripts/printwalsarea.py:272-277 | a code is shown as "Name/code" on its first mention and as the bare code once seen, earlier in the list or in an earlier call |
| WalsArea.LangCountFormatted | scripts/printwalsarea.py:282-284 | a count followed by "language" for one and "languages" otherwise |
| WalsArea.CodeSetSnoc | scripts/printwalsarea.py:277 | seeing one more code adds it to the seen set |
| WalsArea.AreaPrinter.constructor | scripts/printwalsarea.py:71-77 | a printer that has seen no language, with the rounded quorum |
| WalsArea.AreaPrinter.FormatLanguageList | scripts/printwalsarea.py:265-279 | the labels joined with ", "; the seen set only grows, by exactly the listed codes |
| WalsArea.ExtraIds | scripts/printwalsarea.py:159-162 | chapter + 'E' and chapter + 'X' for every feature, in order |
| WalsArea.AddCrossCombinations | scripts/printwalsarea.py:159-164 | the nested loop gives the extended feature listing |
| WalsArea.AddChapterIds | scripts/printwalsarea.py:161-164 | one pass of the outer loop adds the chapter's missing 'E' and 'X' ids |
| WalsArea.IdsOfSnoc | scripts/printwalsarea.py:164 | adding a feature adds its id |
| WalsArea.AddMissingSpec | scripts/printwalsarea.py:159-164 | the extension keeps the features before it, adds only missing ids as "Cross-combination", and the ids stay distinct |
| WalsArea.CrossCombinationsPresent | scripts/printwalsarea.py:157-166 | afterwards every chapter has its 'E' and 'X' feature, the features present keep their names, and only new ids are added as "Cross-combination" |
| Phoible.FindUsefulInventories | scripts/listphoiblesounds.py:129-148 | the reading loop gives the useful inventories `UsefulIff` describes |
| Phoible.UsefulIff | scripts/listphoiblesounds.py:139-146 | an inventory is useful exactly when it is not blocked and one of its rows says 'TRUE' or 'FALSE' in the marginal column |
| Phoible.MainCodeShape | scripts/listphoiblesounds.py:167-168 | the main code has no '/': it is the whole code, or the part before the first '/' |
| Phoible.StripFallback | scripts/listphoiblesounds.py:165-168 | a code with its fallback part removed |
| Phoible.MainCodes | scripts/listphoiblesounds.py:165-168 | the main code of every source language, in order |
| Phoible.TopLangs | scripts/listphoiblesounds.py:151-171 | the loop gives the top languages `TopLangsBound` describes |
| Phoible.FirstOfHas | scripts/listphoiblesounds.py:160-169 | a code is among the first n exactly when one of them is it; there are at most n |
| Phoible.TopLangsBound | scripts/listphoiblesounds.py:151-171 | at most `number` languages, exactly the main codes of the first `number` rows, none with a fallback part |
| Phoible.GeneralPartShape | scripts/listphoiblesounds.py:193-197 | a phoneme without a bar is kept whole, otherwise exactly the part after its first one |
| Phoible.FirstUseful | scripts/listphoiblesounds.py:187-189 | the inventory a language fixes is a useful one |
| Phoible.RowDetails | scripts/listphoiblesounds.py:187-210 | one PHOIBLE row applied to a language's details; `RowDetailsTaken` states what it takes |
| Phoible.RowDetailsTaken | scripts/listphoiblesounds.py:187-210 | a row fixes the inventory if none is yet and adds its phoneme to the list of its class when it is of that inventory and not marginal |
| Phoible.ListRowLanguage | scripts/listphoiblesounds.py:177-210 | a row of a known language changes that language's details as `RowDetailsTaken` describes |
| Phoible.NothingUnfixed | scripts/listphoiblesounds.py:188-191 | no row is taken while no inventory is fixed |
| Phoible.NothingBeforeFirst | scripts/listphoiblesounds.py:188-191 | before the first useful row of a language, none of its rows is of a useful inventory |
| Phoible.ListedKeys | scripts/listphoiblesounds.py:176-182 | reading the rows leaves the set of languages as it is |
| Phoible.ListedLanguage | scripts/listphoiblesounds.py:176-212 | each language gets the first useful inventory among its rows and exactly the non-marginal phonemes of that inventory, by class and in order; rows of other inventories are skipped |
| Phoible.RowsStep | scripts/listphoiblesounds.py:176-212 | the rows taken after n rows are those taken after n-1 rows and what row n adds |
| Phoible.InsertByLength | scripts/listphoiblesounds.py:246 | insertion after every shorter or equal string keeps a list shortest first |
| Phoible.SortByLength | scripts/listphoiblesounds.py:246 | the sort by length gives a list shortest first of the same size |
| Phoible.InsertByLengthAdds | scripts/listphoiblesounds.py:246 | insertion adds exactly the inserted string |
| Phoible.SortByLengthPermutes | scripts/listphoiblesounds.py:246 | the sort by length is a permutation |
| Phoible.OfLengthConcat | scripts/listphoiblesounds.py:246 | the strings of one length in a concatenation are those of each part |
| Phoible.NoneOfLength | scripts/listphoiblesounds.py:246 | a list of longer strings has none of that length |
| Phoible.OfLengthCons | scripts/listphoiblesounds.py:246 | the strings of one length in a list with one more in front |
| Phoible.InsertFrontStable | scripts/listphoiblesounds.py:246 | a string shorter than all goes first without changing the order of any length |
| Phoible.InsertByLengthStable | scripts/listphoiblesounds.py:246 | insertion puts a string after the strings of its length |
| Phoible.ShortestFirstFrom | scripts/listphoiblesounds.py:246 | in a list shortest first, the first string is no longer than any |
| Phoible.SortByLengthStable | scripts/listphoiblesounds.py:246 | the sort is stable: phonemes of one length keep their order |
| Phoible.BaseForm | scripts/listphoiblesounds.py:247-252 | the basic form is no longer than the phoneme |
| Phoible.BaseFormPlain | scripts/listphoiblesounds.py:247-249 | the basic form of a longer phoneme has no modifier left |
| Phoible.Bases | scripts/listphoiblesounds.py:247-252 | the basic form of every phoneme, in order |
| Phoible.AddVariant | scripts/listphoiblesounds.py:260 | adding a variant adds its key, and only that key |
| Phoible.SimplifyStep | scripts/listphoiblesounds.py:254-269 | one pass of the loop of `_simplify_phoneme_set`; `StepExtends`, `StepKeptCard`, `AbsorbedStep`, `BaseStep` and `PlainStep` state what it keeps and records |
| Phoible.SimplifiedNext | scripts/listphoiblesounds.py:246-269 | the state after k+1 phonemes is one loop step after k |
| Phoible.ExtendsTransitive | scripts/listphoiblesounds.py:246-269 | growing the result is transitive |
| Phoible.StepExtends | scripts/listphoiblesounds.py:254-269 | a loop step only adds kept phonemes and variants |
| Phoible.SimplifiedGrows | scripts/listphoiblesounds.py:246-269 | kept phonemes and recorded variants are never taken back |
| Phoible.StepKeptCard | scripts/listphoiblesounds.py:254-269 | a step keeps at most one more phoneme |
| Phoible.SimplifiedNoLonger | scripts/listphoiblesounds.py:238-271 | no more phonemes are kept than were given |
| Phoible.KeptAreBases | scripts/listphoiblesounds.py:263-269 | every kept phoneme is the basic form of a given one |
| Phoible.KeptArePlain | scripts/listphoiblesounds.py:247-269 | a kept phoneme of several characters has no modifier left |
| Phoible.AbsorbedStep | scripts/listphoiblesounds.py:254-261 | a vowel of several letters that are all kept is not kept but recorded under its first letter |
| Phoible.BaseStep | scripts/listphoiblesounds.py:263-266 | a phoneme differing from its basic form adds the basic form and is recorded as its variant |
| Phoible.PlainStep | scripts/listphoiblesounds.py:267-269 | a phoneme equal to its basic form is added as it is |
| Phoible.StillKept | scripts/listphoiblesounds.py:245-269 | a kept phoneme stays kept |
| Phoible.StillRecorded | scripts/listphoiblesounds.py:245-269 | a recorded variant stays recorded |
| Phoible.DiphthongRecorded | scripts/listphoiblesounds.py:254-261 | a diphthong whose letters are all kept when it comes up is not kept, but recorded as a variant of its first letter |
| Phoible.BaseRecorded | scripts/listphoiblesounds.py:263-266 | a phoneme that is no such diphthong and differs from its basic form contributes the basic form and is its variant |
| Phoible.PlainKept | scripts/listphoiblesounds.py:267-269 | a phoneme that is no such diphthong and is its own basic form is kept |
| Phoible.NothingLost | scripts/listphoiblesounds.py:238-271 | every phoneme is kept or recorded as a variant |
| Phoible.ListSet | scripts/listphoiblesounds.py:414 | `set(l)` holds exactly the elements of the list |
| Phoible.CountPhonemes | scripts/listphoiblesounds.py:401-419 | the loop gives the counts `CountsLanguages` describes |
| Phoible.CountsLanguages | scripts/listphoiblesounds.py:411-417 | a phoneme is counted once per language that has it, however often its list repeats it, so never more often than there are languages |
| Phoible.InsertInt | scripts/listphoiblesounds.py:320 | insertion into an increasing list keeps it increasing and adds the number |
| Phoible.SortedDistinct | scripts/listphoiblesounds.py:320 | the distinct numbers, increasing |
| Phoible.MaxCount | scripts/listphoiblesounds.py:319 | the largest count, reached by some element |
| Phoible.WithCount | scripts/listphoiblesounds.py:320 | exactly the elements with a given count |
| Phoible.MostFrequentValues | scripts/listphoiblesounds.py:313-320 | none exactly for no values, where `max` raises, else a non-empty increasing list |
| Phoible.MostFrequentExact | scripts/listphoiblesounds.py:318-320 | the result holds exactly the values that occur at least as often as any other |
| Phoible.InitialLangMapAdd | scripts/listphoiblesounds.py:103-106 | one more language keeps the map an initial map of the languages added |
| Phoible.InitialLanguages | scripts/listphoiblesounds.py:102-106 | each source language is mapped, under its 639-3 code, to fresh details with its name and codes |
| Phoible.PhoibleLister.constructor | scripts/listphoiblesounds.py:91-126 | the lister holds the useful inventories, the initial language map, the top five languages and no variant |
| Phoible.PhoibleLister.ListSounds | scripts/listphoiblesounds.py:175-212 | the row-reading loop of `list_sounds` updates the language map as `ListedLanguage` describes |
| Phoible.PhoibleLister.ReadRow | scripts/listphoiblesounds.py:187-212 | one row applied to a language's details |
| Phoible.PhoibleLister.SimplifyPhonemeSet | scripts/listphoiblesounds.py:238-271 | the kept phonemes, sorted without duplicates and no more than given, every phoneme kept or recorded as a variant |
| Phoible.PhoibleLister.SimplifyPhoneme | scripts/listphoiblesounds.py:247-269 | one loop pass of `_simplify_phoneme_set` |
| Phoible.PhoibleLister.CombineRelatedSounds | scripts/listphoiblesounds.py:224-236 | the copy `Combined` describes: consonants and vowels each simplified in turn, the vowels with the variant map the consonants left; same name and codes, sorted, never more than before |
| Phoible.PhoibleLister.CombineAll | scripts/listphoiblesounds.py:219 | the i-th language returned is the i-th merged with the variant map the languages before it left, and the variant map is the one after all of them; each keeps its name, codes and inventory, and its lists become sorted and no longer |
| Phoible.Combined | scripts/listphoiblesounds.py:224-236 | `_combine_related_sounds` on a language and the variant map; `CombinedMerges` states what it keeps |
| Phoible.CombinedUpTo | scripts/listphoiblesounds.py:219 | the list comprehension of `list_sounds`, with the variant map carried from one language to the next; `CombinedUpToShape` and `CombinedUpToMerges` state its results |
| Phoible.CombinedUpToShape | scripts/listphoiblesounds.py:219 | the fold gives one language per input, the i-th made from the i-th with the variant map of the languages before it |
| Phoible.CombinedMerges | scripts/listphoiblesounds.py:224-236 | merging one language keeps its name and codes, leaves both sound lists strictly sorted and grows neither |
| Phoible.CombinedUpToMerges | scripts/listphoiblesounds.py:219-236 | every language of the fold is merged from the one at its position |
| Building.StripComment | scripts/buildvoc.py:884-889 | a word ending in ')' with a '(' loses its comment, leaving no '(' and a shorter word; any other word is unchanged |
| Building.FirstParenAbsent | scripts/buildvoc.py:885-888 | no '(' precedes the first one found |
| Building.ParenFound | scripts/buildvoc.py:885-886 | `find` misses '(' only when the word has none |
| Building.EnclosedWordIsEmpty | scripts/buildvoc.py:876-889 | a word completely enclosed in parentheses leaves nothing |
| Building.Adapted | scripts/buildvoc.py:905-932 | the converted word and penalty for a table; `AdaptedPenaltyBound` states the penalty bound, and `Adapt` that the method computes it |
| Building.AdaptedPenaltyBound | scripts/buildvoc.py:908-930 | the penalty is at most one per character of the preprocessed word, and 0 when no table entry is flagged |
| Building.NoFlagsNoPenalty | scripts/buildvoc.py:918-920 | a table without flagged entries adds no penalty |
| Building.VocBuilder.MkCandidate | scripts/buildvoc.py:865-938 | the cached result for a known key, else a new result stored under "code:word": none exactly when the stripped word has no Latin letter, otherwise a fresh candidate made from the word |
| Building.VocBuilder.MkCandidateTwice | scripts/buildvoc.py:880-882 | a second call with the same language and word returns the same candidate |
| Building.NewCandidate | scripts/buildvoc.py:884-938 | none exactly when the stripped word has no Latin letter; the lower-cased word without a penalty when the language has no conversion table; otherwise the converted, postprocessed word with its penalty |
| Building.StripCommentScan | scripts/buildvoc.py:884-889 | the stripping on a local variable gives `StripComment` |
| Building.Adapt | scripts/buildvoc.py:905-932 | preprocessing, the longest-match loop and postprocessing give the converted word and its penalty |
| Building.HasLatinLetter | scripts/util.py:341-343 | `has_latin_letter`: some character is a Latin letter; `HasLatinLetterScan` states that the scan decides it |
| Building.HasLatinLetterScan | scripts/util.py:341-343 | the scan finds a Latin letter exactly when the text has one |
| Candidates.Candidate.constructor | scripts/buildutil.py:171-186 | a new candidate keeps the given word, penalty, language, originals and auxlangs, with raw_psim -1, simscore -1, no related candidates and not yet filled |
| Candidates.Candidate.DScore | scripts/buildutil.py:188-195 | the distortion score lies in [0,1] for a non-negative penalty, is 0 exactly when the penalty is 5 or more, 1 exactly when it is 0, and otherwise 1 less a fifth of the penalty |
| Candidates.Candidate.TotalScore | scripts/buildutil.py:197-200 | the total score lies between 0 and simscore, is 0 for a penalty of 5 or more and equals simscore for penalty 0 |
| Candidates.Candidate.ExportedWord | scripts/buildutil.py:202-204 | the external form contains none of the internal letters C, S, N or the filler vowel |
| Candidates.Candidate.Syllables | scripts/buildutil.py:266-277 | the vowel count, less a half exactly when the word is non-empty and starts and ends with an internal vowel, and never more than the word length |
| Candidates.Candidate.CountRelatedNatlangCands | scripts/buildutil.py:206-211 | at most the number of related languages, and 0 exactly when every related language is an auxlang |
| Candidates.Candidate.HasSuitableRelatedNatlangCands | scripts/buildutil.py:213-228 | true exactly when some related language is not an auxlang and, for a Glosa candidate, is neither Spanish nor French; outside Glosa this agrees with a positive natlang count |
| Candidates.Candidate.FindLangsWithIdenticalCandidate | scripts/buildutil.py:230-244 | a language is in the result exactly when one of its related candidates has the same external form |
| Candidates.FindExport | scripts/buildutil.py:239-242 | the inner loop finds a match exactly when some candidate of the list exports to the word |
| Candidates.Candidate.InsertFillerVowels | scripts/buildutil.py:279-514 | a second call changes neither word nor penalty; the first call sets the word and added penalty of the sub-word repair, raises the penalty by at least the number of filler vowels in the result, and sets the filled flag |
| Candidates.Candidate.Validate | scripts/buildutil.py:516-549 | None exactly when the word is valid; the unexpected-characters error is returned exactly when such characters exist, and it names exactly those |
| Candidates.CheckWords | scripts/buildutil.py:529-549 | None exactly when every sub-word passes the syllable checks; a failure here is never the unexpected-characters error |
| CandidateConstraints.Constraints.Fails | scripts/buildutil.py:690-712 | "too long" when the syllables exceed the limit; otherwise the allow-list rationale (or "") for a candidate with a language outside the list; otherwise the skip rationale (or "") for a skipped word; otherwise "not the chosen candidate" when another word was chosen; otherwise ""; a candidate without a language always passes the allow-list |
| CandidateConstraints.NatToString | scripts/buildutil.py:612-616 | a whole number written out is a non-empty run of digits |
| CandidateConstraints.DigitsRoundTrip | scripts/buildutil.py:612-616 | the digits of a number read back as that number |
| CandidateConstraints.ParseWholeNumber | scripts/buildutil.py:612-616 | a whole syllable limit such as "Syllables:2" is read as exactly that number |
| CandidateConstraints.ParseDigits | scripts/buildutil.py:615 | a run of digits reads as its decimal value |
| CandidateConstraints.NoDotInDigits | scripts/buildutil.py:615 | a run of digits contains no '.', so it is read as a whole number |
| CandidateConstraints.ClassifyFrom | scripts/buildutil.py:630-632 | only the exact text "Allow short" is recognised as the Allow short constraint |
| CandidateConstraints.IndexOf | scripts/buildutil.py:610-688 | each constraint kind has its place in the order in which the prefixes are tried |
| CandidateConstraints.IndexOfOrder | scripts/buildutil.py:610-688 | the place of the kind tried at step i is i |
| CandidateConstraints.EarlierPrefixDiffers | scripts/buildutil.py:610-688 | a prefix tried earlier differs in its first two characters from any later prefix, so no constraint starts with two of them |
| CandidateConstraints.StrippedPrefixTest | scripts/buildutil.py:613-614 | for a constraint without surrounding whitespace, the removeprefix-then-compare test holds exactly when the constraint starts with the prefix |
| CandidateConstraints.ClassifyPrefixed | scripts/buildutil.py:610-688 | a constraint starting with a kind's prefix is read as that kind, with the stripped rest as its value |
| CandidateConstraints.ClassifySkips | scripts/buildutil.py:610-688 | the prefixes tried before the matching one are all passed over |
| CandidateConstraints.ClassifyPasses | scripts/buildutil.py:610-688 | a prefix tried before the matching kind's fails its test |
| CandidateConstraints.EarlierPrefixAbsent | scripts/buildutil.py:610-688 | the constraint does not start with any earlier prefix |
| CandidateConstraints.ClassifyStepsOver | scripts/buildutil.py:613-614 | a kind whose prefix the constraint does not start with is passed over |
| CandidateConstraints.ApplyDirective | scripts/buildutil.py:612-688 | one constraint is accepted exactly when it is recognised and a syllable limit is a number; Allow short and Premerge set their flags and never clear them; a skip records its word |
| CandidateConstraints.Parsed | scripts/buildutil.py:589-688 | what the constructor makes of a constraint string; `ParseConstraints` states that the loop computes it, `ApplyAllOk` and `UnknownConstraintRaises` when it fails |
| CandidateConstraints.ParseConstraints | scripts/buildutil.py:589-688 | the constructor loop yields what applying the semicolon-separated constraints in order yields, stopping at the first ValueError |
| CandidateConstraints.ApplyAllOk | scripts/buildutil.py:610-688 | the constraints are read without error exactly when every one is recognised and every syllable limit is a number |
| CandidateConstraints.UnknownConstraintRaises | scripts/buildutil.py:688 | an unknown constraint, or a syllable limit that is not a number, anywhere in the string makes the constructor raise |
| CandidateConstraints.AllowShortSticks | scripts/buildutil.py:630-632 | "Allow short" anywhere in a string read without error sets allowshort |
| CandidateConstraints.ApplyAllCons | scripts/buildutil.py:611-616 | a successful run applied its first constraint and went on from the resulting settings |
| CandidateConstraints.KeepsAllowShort | scripts/buildutil.py:630-632 | once set, allowshort stays set through the remaining constraints |
| Entries.KindOfClasses | scripts/buildvoc.py:262-284 | only the first class counts: NOUN exactly for no class, a noun or a name; ADJ exactly for an adjective or adverb; VERB otherwise |
| Entries.GetKind | scripts/buildvoc.py:262-284 | `get_kind` on the comma-separated "class" value; `KindOfClasses` states the rule, and `KindCountsAddUp` that every entry is counted under exactly one kind |
| Entries.KindsUpTo | scripts/buildvoc.py:292-293 | one kind per entry, for the first n entries |
| Entries.KindsOf | scripts/buildvoc.py:292-293 | one kind per entry |
| Entries.CountOf | scripts/buildvoc.py:292-293 | a kind occurs at most as often as there are entries |
| Entries.KindCount | scripts/buildvoc.py:286-294 | the count of one kind is at most the number of entries |
| Entries.CountsAddUp | scripts/buildvoc.py:286-294 | the noun, adjective and verb counts add up to the number of kinds |
| Entries.KindCountsAddUp | scripts/buildvoc.py:286-294 | every entry is counted under exactly one kind |
| Entries.CountsOf | scripts/buildvoc.py:289-291 | the counter has an entry for all three kinds, also those with count 0 |
| Entries.Counts | scripts/buildvoc.py:286-294 | the counter has all three kinds and each holds the number of entries of that kind |
| Entries.CountsOfSnoc | scripts/buildvoc.py:292-293 | one more entry adds one to the count of its kind and leaves the others |
| Entries.CountStep | scripts/buildvoc.py:293 | the loop body turns the counter of the entries so far into that of one more entry |
| Entries.CountExistingKinds | scripts/buildvoc.py:286-294 | the loop yields the counts of every kind among the entries |
| Entries.RarestKindsNonEmpty | scripts/buildvoc.py:296-339 | at least one kind is always due |
| Entries.BalancedKinds | scripts/buildvoc.py:296-303 | with twice as many nouns as adjectives and as verbs, all three kinds are due |
| Entries.InsertByCount | scripts/buildvoc.py:314 | inserting a pair keeps the list sorted by count and adds exactly that pair |
| Entries.SortByCount | scripts/buildvoc.py:314 | the sort by count is sorted and a permutation of its input |
| Entries.KindsWithCountMembers | scripts/buildvoc.py:314-322 | a kind is collected exactly when one of the first pairs has it with the given count |
| Entries.SortedWeights | scripts/buildvoc.py:304-314 | the sorted weighted kinds hold each kind once with its weight, and the first weight is the least one |
| Entries.FirstCountIsLeast | scripts/buildvoc.py:309-322 | the kinds sharing the first weight in sorted order are exactly the kinds of least weight, nouns weighing half |
| Entries.TakeLeastCounted | scripts/buildvoc.py:311-322 | the loop takes the first pair's count and collects exactly the kinds of that count |
| Entries.DetermineKindsToAdd | scripts/buildvoc.py:296-339 | the result is the set of rarest kinds, nouns counted at half |
| Entries.MinLength | scripts/buildvoc.py:1190-1206 | the minimum length is 1 or 3, and 1 whenever the allowshort option or constraint is set |
| Entries.MinLengthByKind | scripts/buildvoc.py:1204-1206 | an entry without a class fails (the IndexError) though get_kind calls it a noun; otherwise 3 exactly for a noun, an adjective or a verb class and 1 for everything else |
| Entries.KeptPrefixContents | scripts/buildvoc.py:1224-1230 | the loop keeps, once each, the translations that are not a dropped comment |
| Entries.CleanedTranslationsContents | scripts/buildvoc.py:1219-1236 | no duplicates; empty only for no translations; the non-comment translations when there are any, otherwise the first translation alone |
| Entries.KeepTranslations | scripts/buildvoc.py:1221-1234 | the loop and its fallback yield the cleaned translation list |
| Entries.CleanupTranslationValue | scripts/buildvoc.py:1209-1236 | bracketed text is removed, the semicolon-separated translations are cleaned and joined with "; " |
| Entries.CheckThatPartsFit | scripts/buildvoc.py:1586-1600 | None exactly when the joined parts, without spaces, equal the word up to case |
| Entries.PartsOfWordFit | scripts/buildvoc.py:1594-1600 | parts that spell the word fit it |
| Entries.SpaceDeleted | scripts/buildvoc.py:1597 | deleting spaces makes one more space in the text irrelevant |
| Entries.SpaceInGlossIgnored | scripts/buildvoc.py:1595-1597 | a part "des sis" fits exactly when the parts "des" and "sis" do |
| Entries.FitIgnoresCase | scripts/buildvoc.py:1597-1598 | the case of the word does not change whether the parts fit |
| Entries.ListLessIrreflexive | scripts/buildvoc.py:2402 | no label list sorts before itself |
| Entries.ListLessTotal | scripts/buildvoc.py:2402 | of two different label lists exactly one sorts first |
| Entries.ListLessTransitive | scripts/buildvoc.py:2402 | the order on label lists is transitive |
| Entries.FirstMinimum | scripts/buildvoc.py:2402 | min over the enumerated lists picks a list no other sorts before, and the first such one |
| Entries.LabelsUpTo | scripts/buildvoc.py:2394-2397 | one "word/lang" label per candidate |
| Entries.SortedLabelLists | scripts/buildvoc.py:2390-2399 | one list per candidate set, each the sorted labels of that set |
| Entries.FirstLabelledPosition | scripts/buildvoc.py:2390-2402 | the chosen set's sorted labels come first, and no earlier set's are equal to them |
| Entries.SelectCandDictToHandleFirst | scripts/buildvoc.py:2368-2408 | a ValueError unless both lists have the same, non-zero length; otherwise the position of the first set whose sorted labels come first |
| Merging.ParseInt | scripts/buildvoc.py:2802 | `int` on a transcount; `IntRoundTrip` states that it reads back what `str` wrote |
| Merging.IntToString | scripts/buildvoc.py:2802 | `str` of a number is never empty |
| Merging.IntRoundTrip | scripts/buildvoc.py:2802 | a count written by `str` is read back by `int` as the same number |
| Merging.Unlisted | scripts/buildvoc.py:2806-2808 | the words of the second entry kept by the loop are no more than those looked at |
| Merging.UnlistedMembers | scripts/buildvoc.py:2806-2808 | a word is appended exactly when the second entry has it and the first does not |
| Merging.UnlistedStep | scripts/buildvoc.py:2807-2808 | one more word is appended exactly when the first entry does not list it |
| Merging.MergeValue | scripts/buildvoc.py:2779-2809 | the loop body computes the joint value of one key, or the ValueError of an unreadable transcount |
| Merging.JoinWordLists | scripts/buildvoc.py:2804-2809 | the first entry's value followed by the second entry's new translations, joined with "; " |
| Merging.AppendUnlisted | scripts/buildvoc.py:2805-2808 | the list starts with the first value and continues with the second entry's words it does not list, in order |
| Merging.JointWithEmpty | scripts/buildvoc.py:2780-2781 | a key the second entry lacks or leaves empty keeps the first entry's value |
| Merging.JointWithItself | scripts/buildvoc.py:2778-2809 | merging a value with itself changes nothing, except for "sense" and "transcount" |
| Merging.JointWordsContents | scripts/buildvoc.py:2804-2809 | the joint translations start with the first entry's, and a word of the second is appended exactly when the first does not list it |
| Merging.TranscountKeepsLarger | scripts/buildvoc.py:2801-2802 | the merged transcount is the larger of the two counts and reads back as it |
| Merging.CountsOfNumbers | scripts/buildvoc.py:2802 | two readable counts join to the larger one, written by `str` |
| Merging.TranscountUnreadable | scripts/buildvoc.py:2801-2802 | a transcount `int` cannot read makes the merge a ValueError once the second entry has one |
| Merging.JointClassShape | scripts/buildvoc.py:2782-2798 | the joint class is the first class, or both comma-separated exactly when they differ, one is an affix, and the first is not a list already naming the second |
| Merging.JointValue | scripts/buildvoc.py:2779-2809 | the value a key of the first entry gets; `JointWithEmpty`, `JointWithItself`, `TranscountKeepsLarger`, `TranscountUnreadable`, `JointClassShape` and `JointWordsContents` state it per key |
| Merging.JointValues | scripts/buildvoc.py:2778-2810 | one joint value per key of the first entry |
| Merging.Tags | scripts/buildvoc.py:2831-2844 | one tag per sense |
| Merging.Collect | scripts/buildvoc.py:2830-2844 | a successful collection has one tag per sense looked at |
| Merging.TagSenses | scripts/buildvoc.py:2830-2844 | the loop over all senses but the last collects the tags in order and stops at the first IndexError |
| Merging.DoMergeEntries | scripts/buildvoc.py:2758-2857 | the merged entry, or the KeyError, IndexError or ValueError the source raises, is exactly what the merge specification gives, and the input entries are unchanged |
| Merging.AddJointValues | scripts/buildvoc.py:2776-2810 | the first loop adds every key of the first entry with its joint value, or ends with the first ValueError |
| Merging.AddJointValue | scripts/buildvoc.py:2778-2810 | one iteration adds the i-th key with its joint value, or its error ends the loop |
| Merging.MergeKey | scripts/buildvoc.py:2779-2809 | the joint value of the i-th key |
| Merging.DisambiguateSenses | scripts/buildvoc.py:2812-2851 | the sense disambiguation sets the entry the specification gives, or the KeyError or IndexError it raises |
| Merging.RetagSenses | scripts/buildvoc.py:2830-2850 | the senses but the last are tagged and the second entry's sense, with its English word, is appended |
| Merging.CopyMissing | scripts/buildvoc.py:2853-2856 | the last loop adds the keys only the second entry has, with their values |
| Merging.CombineFailsAt | scripts/buildvoc.py:2778-2810 | a ValueError at one key is the result of the whole first loop |
| Merging.CollectStaysNone | scripts/buildvoc.py:2831-2838 | once a tag fails, tagging more senses fails too |
| Merging.CollectContents | scripts/buildvoc.py:2830-2844 | tagging fails exactly when some sense's tag fails, and otherwise the i-th tagged sense is the i-th tag |
| Merging.TaggingFails | scripts/buildvoc.py:2831-2844 | tagging fails (an IndexError) exactly when the first entry has no English word and some sense lacks an explanation; each tagged sense starts with the sense |
| Merging.TagSenseFails | scripts/buildvoc.py:2833-2843 | one tag fails exactly when the sense has no explanation and there are no original English words; a tag starts with its sense |
| Merging.CombineKeys | scripts/buildvoc.py:2776-2810 | after the first loop the entry has the first entry's keys in order, each with line number -1 |
| Merging.CombineValues | scripts/buildvoc.py:2778-2810 | after the first loop every key holds its joint value and none of them failed |
| Merging.CopyKeys | scripts/buildvoc.py:2853-2856 | the last loop appends the keys of the second entry the first lacks, in their order |
| Merging.CopyWellFormed | scripts/buildvoc.py:2853-2856 | the last loop keeps the entry well formed |
| Merging.CopyKeeps | scripts/buildvoc.py:2853-2856 | the last loop keeps the values and line numbers of the keys already there |
| Merging.CopyAdds | scripts/buildvoc.py:2853-2856 | a key the last loop adds has the second entry's value and line number -1 |
| Merging.DisambiguateOnlySense | scripts/buildvoc.py:2812-2851 | disambiguation changes at most the "sense" value, which the entry must have |
| Merging.Merged | scripts/buildvoc.py:2758-2857 | what `do_merge_entries` returns; `MergedStages`, `MergedKeys`, `MergedValues`, `MergedCopies` and `MergedNeedsSenseAndEn` state its keys, values and errors, and `DoMergeEntries` that the method computes it |
| Merging.MergedStages | scripts/buildvoc.py:2776-2857 | a successful merge is the first loop, then disambiguation, then the copy of the remaining keys |
| Merging.DisambiguatedShape | scripts/buildvoc.py:2812-2851 | between disambiguation and the last loop the entry has the first entry's keys in order, each with line number -1, and the joined values except for "sense" |
| Merging.MergedKeys | scripts/buildvoc.py:2776-2857 | the merged entry has the first entry's keys in order, then those only the second has, in theirs; every line number is -1 |
| Merging.MergedValues | scripts/buildvoc.py:2778-2810 | every key of the first entry other than "sense" gets its joint value, and the merge succeeds only when every such join does |
| Merging.MergedCopies | scripts/buildvoc.py:2853-2856 | a key only the second entry has is copied with its value |
| Merging.MergedNeedsSenseAndEn | scripts/buildvoc.py:2813-2815 | once the values are joined, an entry without "sense" or without "en" makes the merge a KeyError |
| Phonology.Exported | scripts/buildutil.py:759-769 | the external form of a word; `ExportedHasNoInternalLetters` states that no internal letter is left, and `ExportWord` that the loop computes it |
| Phonology.ExportWord | scripts/buildutil.py:759-769 | the loop over the replacement table yields the external form of the word |
| Phonology.ReplaceAllKeepsAbsent | scripts/buildutil.py:767-768 | a character absent from the word and from every replacement stays absent after the table is applied |
| Phonology.ReplaceAllRemoves | scripts/buildutil.py:767-768 | a single-character key of the table is gone from the result when no later replacement brings it back |
| Phonology.ExportedHasNoInternalLetters | scripts/buildutil.py:129-137 | the external form contains none of 'C', 'S', 'N' and the filler vowel |
| Phonology.DropWhitespace | scripts/buildutil.py:783 | the result has no whitespace |
| Phonology.Normalized | scripts/buildutil.py:772-788 | the form for minimal pairs; `NormalizedLetters` states which letters cannot occur in it, and `NormalizeWord` that the loop computes it |
| Phonology.NormalizeWord | scripts/buildutil.py:772-788 | the loop over the normalisation table yields the normalised word |
| Phonology.NormalizedLetters | scripts/buildutil.py:140-146 | a normalised word has no whitespace, no hyphen and none of 'v', 'w', 'y', 'z' |
| Phonology.NoSpaceHasNo | scripts/buildutil.py:782-785 | after the whitespace is dropped and a final 'ng' is shortened, no whitespace character is left |
| Phonology.CountVowelsInternal | scripts/buildutil.py:791-797 | at most the word length, and 0 exactly when no lower-cased character is an internal vowel |
| Phonology.CountIn | scripts/buildutil.py:797 | at most the length, and 0 exactly when no character is among the given ones |
| Phonology.ConversionRule | scripts/buildutil.py:800-821 | input and output are the first two fields or ""; the rule carries no penalty exactly when the third field is "0", a missing field counting as "1" |
| Postprocessing.Velar | scripts/buildvoc.py:683-696 | after the velar-nasal rules the word never ends in "Ng" |
| Postprocessing.Lidepla | scripts/buildvoc.py:698-702 | the LIdepla rule; `LideplaShortens` states that it never lengthens a word and leaves one with fewer than three vowel letters unchanged |
| Postprocessing.LideplaShortens | scripts/buildvoc.py:698-702 | doubled vowels are only reduced, so the word never grows, and a word with fewer than three vowel letters is kept |
| Postprocessing.German | scripts/buildvoc.py:704-712 | the German rules; `GermanShortens` states that they never lengthen a word and that a final "er" becomes 'a' when the original has 'er' at a word end |
| Postprocessing.GermanShortens | scripts/buildvoc.py:704-712 | the German rules never lengthen the word; a word without 'h' ending in "er", from an original with 'er' at a word end, ends in 'a' instead |
| Postprocessing.English | scripts/buildvoc.py:714-725 | the English rules; `EnglishEnding` states that they change only the ending, into 'a', and `PostWordStrippedOriginal` that the slashes of the original do not matter |
| Postprocessing.EnglishEnding | scripts/buildvoc.py:714-725 | the English rules keep the length or shorten by one, and a changed word keeps everything but its last letter and ends in 'a' |
| Postprocessing.Spanish | scripts/buildvoc.py:727-742 | the Spanish rules; `SpanishUnaccented` states that no acute accent and no 'H' is left |
| Postprocessing.SpanishUnaccented | scripts/buildvoc.py:738-742 | after the Spanish rules the word holds no acute accent and no silent-letter marker 'H' |
| Postprocessing.French | scripts/buildvoc.py:744-747 | the French -tion rule; `FrenchTion` states that only a final "tyon" changes, into "syon" |
| Postprocessing.FrenchTion | scripts/buildvoc.py:744-747 | the length is kept, and a changed word ended in "tyon" with an original ending in "tYon" and now ends in "syon" |
| Postprocessing.Russian | scripts/buildvoc.py:757-765 | the Russian rule; `RussianFinalVowel` states that only a final 'i' changes |
| Postprocessing.RussianFinalVowel | scripts/buildvoc.py:757-765 | the length is kept, and a changed word ended in 'i', which became 'e' after an original ending in 'e' and 'a' after one ending in "ja" |
| Postprocessing.Indonesian | scripts/buildvoc.py:749-755 | after the Indonesian rule the word ends in 'k' only if it ended in "kk" |
| Postprocessing.RomanceVerb | scripts/buildvoc.py:781-805 | the French and Spanish infinitive rules never lengthen the word |
| Postprocessing.StripVerbEnding | scripts/buildvoc.py:771-858 | the verb rules never lengthen the word; outside French, Spanish and Swahili they remove at most the last three letters; in Swahili they remove the initial "ku" or nothing |
| Postprocessing.PostWord | scripts/buildvoc.py:682-860 | the body of the word loop; `PostWordSpaceless` states that it puts no space into a word, `PostWordStrippedOriginal` that the English slashes do not matter, and the rule lemmas above what each language's rule does |
| Postprocessing.PostWords | scripts/buildvoc.py:682-860 | one processed word per word of the candidate |
| Postprocessing.StripCharIdempotent | scripts/buildvoc.py:718 | stripping slashes twice is stripping them once |
| Postprocessing.EnglishVerbsKeepEnding | scripts/buildvoc.py:771-858 | English verbs keep their ending |
| Postprocessing.EnglishIgnoresSlashes | scripts/buildvoc.py:714-725 | the English rule gives the same result whether or not the original is already stripped of slashes |
| Postprocessing.PostWordStrippedOriginal | scripts/buildvoc.py:714-725 | a word processed with the stripped English original is processed as with the original itself |
| Postprocessing.SameOriginal | scripts/buildvoc.py:718 | the original as the loop leaves it after an English word gives the same result as the original itself |
| Postprocessing.PostWordsStep | scripts/buildvoc.py:682-860 | one turn of the loop appends the processing of the next word |
| Postprocessing.PostprocessCandidate | scripts/buildvoc.py:672-863 | the words of the candidate, each processed by the language's rules, joined by single spaces |
| Postprocessing.SubSpaceless | scripts/buildvoc.py:692-742 | no regular-expression rule puts a space into a word |
| Postprocessing.LanguageRulesSpaceless | scripts/buildvoc.py:698-769 | no language rule puts a space into a word |
| Postprocessing.VerbEndingSpaceless | scripts/buildvoc.py:771-858 | no verb rule puts a space into a word |
| Postprocessing.PostWordSpaceless | scripts/buildvoc.py:682-860 | processing a word without spaces gives a word without spaces |
| Postprocessing.PostprocessWordByWord | scripts/buildvoc.py:679-863 | splitting the result at single spaces gives back exactly the processed words, one per word of the candidate |
| Preprocessing.NrHit | scripts/buildutil.py:96 | a match of NR_BETWEEN_VOWELS is three or four characters long and is rewritten with '+' before its last two characters |
| Preprocessing.PlusRoundTripFrom | scripts/buildvoc.py:557-559 | deleting the inserted '+' signs gives back the text from any position on, when it had none |
| Preprocessing.ChinesePlusRoundTrip | scripts/buildvoc.py:556-559 | the '+' signs only mark syllable boundaries: deleting them restores the word |
| Preprocessing.SilentLetters | scripts/buildvoc.py:596-610 | at most two final letters are silent, and never more than the word has |
| Preprocessing.FrenchSilentFinal | scripts/buildvoc.py:596-610 | the word without its silent final letters is a prefix of it, at most two letters shorter |
| Preprocessing.PreFrench | scripts/buildvoc.py:564-610 | the French rules; `FrenchSilentFinal` states the last step, and `FrenchMarkingInert` that the marking of "éa", "ée" and "oê" finds nothing after the tone table |
| Preprocessing.IndonesianVerbAsWritten | scripts/buildvoc.py:620-636 | the meng- chain in the order written never lengthens the word and leaves a word not starting with "me" unchanged |
| Preprocessing.MenyRuleUnreachable | scripts/buildvoc.py:633-636 | in the order written, a verb starting with "meny" loses only "me", so the "meny" rule never applies |
| Preprocessing.MenyapuAsWritten | scripts/buildvoc.py:620-636 | in the order written, "menyapu" becomes "nyapu" |
| Preprocessing.PreIndonesianVerb | scripts/buildvoc.py:620-636 | the meng- chain with the "meny" rule before the "me" rule never lengthens the word and leaves a word not starting with "me" unchanged |
| Preprocessing.MenyBecomesS | scripts/buildvoc.py:635-636 | in the corrected order a "meny" prefix becomes 's', so "menyapu" becomes "sapu" |
| Preprocessing.IndonesianOrdersAgree | scripts/buildvoc.py:620-636 | the two orders agree on every word that does not start with "meny" |
| Preprocessing.MengPrefix | scripts/buildvoc.py:627-628 | "meng" before g, h, k or a vowel other than e is removed |
| Preprocessing.MemPrefix | scripts/buildvoc.py:629-630 | "mem" before b, f or p is removed |
| Preprocessing.MenPrefix | scripts/buildvoc.py:631-632 | "men" before c, d, j, s, t or z is removed |
| Preprocessing.MengePrefix | scripts/buildvoc.py:624-626 | "menge" becomes "ke" |
| Preprocessing.Devoice | scripts/buildvoc.py:643-646 | a final 'd' becomes 't': the length is kept and the word no longer ends in 'd' |
| Preprocessing.StressFrom | scripts/buildvoc.py:649-652 | stressing the first unstressed vowel from a position on places an acute accent, or finds no vowel and changes nothing |
| Preprocessing.StressPlaced | scripts/buildvoc.py:647-652 | after stressing the word has a stressed vowel or no vowel of "aeiouy" at all |
| Preprocessing.PreRussian | scripts/buildvoc.py:640-652 | the Russian rules; `Devoice` states the final-'d' rule and `StressPlaced` and `RussianStressed` that a stressed vowel is left unless there is no vowel at all |
| Preprocessing.RussianStressed | scripts/buildvoc.py:640-652 | a Russian word comes out with a stressed vowel or with no vowel of "aeiouy" at all |
| Preprocessing.ToneTablesDisjoint | scripts/buildvoc.py:197-198 | no marked vowel of the tone table is also one of its plain vowels, and all lie between U+00E0 and U+01DC |
| Preprocessing.ToneMarksRemoved | scripts/buildvoc.py:197-198 | the tone table removes every marked vowel it lists |
| Preprocessing.FrenchMarkingInert | scripts/buildvoc.py:548-571 | the tone table runs first for French, so the marking of "éa", "ée" and "oê" never finds its patterns and changes nothing |
| Preprocessing.Preprocess | scripts/buildvoc.py:540-670 | no zero-width non-joiner is left in the result |
| Preprocessing.NrKeepsAbsent | scripts/buildvoc.py:559 | the boundary marks add only '+' to a word |
| Preprocessing.ChineseSteps | scripts/buildvoc.py:545-559 | a Chinese word is lower-cased, loses its tone marks, gets boundary marks and loses zero-width non-joiners |
| Preprocessing.ChineseToneless | scripts/buildvoc.py:545-559 | a Chinese word keeps no tone mark |
| Preprocessing.ZwnjRemovalKeepsAbsent | scripts/buildvoc.py:668-669 | deleting zero-width non-joiners brings no character back |
| Preprocessing.VietnameseUnmarked | scripts/buildvoc.py:664-666 | a Vietnamese word keeps no character the tone table or the Vietnamese table maps to another one |
| Preprocessing.PreprocessVietnamese | scripts/buildvoc.py:664-669 | a Vietnamese word goes through the tone table, then the Vietnamese vowel table |
| Preprocessing.PreLanguage | scripts/buildvoc.py:551-666 | the branch on the conversion table's language; the rule lemmas below state what each language's branch does |
| Preprocessing.TurkishRule | scripts/buildvoc.py:657-662 | Turkish loses acute accents and the combining dot above |
| Preprocessing.TagalogRule | scripts/buildvoc.py:657-658 | Tagalog loses acute accents |
| Preprocessing.ThaiRule | scripts/buildvoc.py:654-655 | Thai loses the combining tone marks |
| Preprocessing.HausaRule | scripts/buildvoc.py:612-614 | Hausa loses the combining grave accent |
| Preprocessing.HindiRule | scripts/buildvoc.py:616-618 | Hindi loses the combining double tilde |
| Preprocessing.EnglishRule | scripts/buildvoc.py:561-562 | English IPA goes through the IPA table |
| Preprocessing.RussianRule | scripts/buildvoc.py:640-652 | Russian goes through the Russian rules |
| Preprocessing.VietnameseRule | scripts/buildvoc.py:664-666 | Vietnamese goes through the tone table and the Vietnamese table |
| Preprocessing.TurkishUnaccented | scripts/buildvoc.py:657-669 | a Turkish word keeps no acute accent and no combining dot above |
| Preprocessing.TagalogUnaccented | scripts/buildvoc.py:657-669 | a Tagalog word keeps no acute accent |
| Preprocessing.ThaiUnmarked | scripts/buildvoc.py:548-669 | a Thai word keeps no tone-marked vowel and no combining tone mark |
| Preprocessing.HausaUnmarked | scripts/buildvoc.py:548-669 | a Hausa word keeps no tone-marked vowel and no combining grave accent |
| Preprocessing.HindiUnmarked | scripts/buildvoc.py:616-669 | a Hindi word keeps no combining double tilde |
| Preprocessing.EnglishIpaCleaned | scripts/buildvoc.py:561-562 | an English transcription keeps no combining tilde and none of the deleted IPA marks |
| Preprocessing.ToneOnlyLanguages | scripts/buildvoc.py:545-669 | German and Japanese words are only lower-cased and lose their tone marks and zero-width non-joiners |
| Preprocessing.ArabicArticle | scripts/buildvoc.py:551-554 | an Arabic word loses an initial "al-" unless that is all of it |
| Preprocessing.IndonesianSteps | scripts/buildvoc.py:620-636 | an Indonesian verb loses a meng- prefix (in the corrected order); other Indonesian words are only lower-cased |
| Preprocessing.RussianSteps | scripts/buildvoc.py:640-669 | a Russian word goes through the Russian rules only |
| Preprocessing.OtherLanguages | scripts/buildvoc.py:540-670 | a word of any other language is only lower-cased |
| Repair.PunctRun | scripts/buildutil.py:125 | a run of punctuation starting at a position ends within the text |
| Repair.NOnset | scripts/buildutil.py:383-384 | a match of "N, optional g, then a vowel, l or r" is two or three characters long and lies within the text |
| Repair.PrePhase | scripts/buildutil.py:300-410 | the steps before the illegal-pair loop; `PairPrePhase` states that they leave a lone filler pair unchanged, and `FrenchRuleSeesNonEmptyWord` that the steps before the French rule never empty a word |
| Repair.RespellX | scripts/buildutil.py:301-310 | no 'X' is left: it becomes 'h' before vowels (and Spanish semivowels) and 'k' elsewhere |
| Repair.Simplify | scripts/buildutil.py:312-329 | the cost-free simplifications; `SimplifyKeepsNonEmpty` states that they never empty a word, `PairSimplify` that they leave a lone filler pair unchanged |
| Repair.SimplifyKeepsNonEmpty | scripts/buildutil.py:312-329 | the simplifications keep a non-empty word non-empty |
| Repair.PairSimplify | scripts/buildutil.py:312-329 | the simplifications leave a lone filler pair unchanged |
| Repair.InitialClusters | scripts/buildutil.py:331-341 | the initial-cluster rules with their penalty; `InitialClustersKeepNonEmpty` states that they never empty a word, `PairInitialClusters` that they leave a lone filler pair unchanged at no cost |
| Repair.InitialClustersKeepNonEmpty | scripts/buildutil.py:331-341 | the initial-cluster rules keep a non-empty word non-empty |
| Repair.PairInitialClusters | scripts/buildutil.py:331-341 | the initial-cluster rules leave a lone filler pair unchanged and add no penalty |
| Repair.Diphthongs | scripts/buildutil.py:343-364 | the diphthong rules with their penalty; `PairDiphthongs` states that they leave a lone filler pair unchanged at no cost |
| Repair.PairDiphthongs | scripts/buildutil.py:343-364 | the diphthong rules leave a lone filler pair unchanged and add no penalty |
| Repair.Consonants | scripts/buildutil.py:366-410 | the consonant rules with their penalty; `PairConsonants` states that they leave a lone filler pair unchanged at no cost |
| Repair.PairConsonants | scripts/buildutil.py:366-410 | the consonant rules leave a lone filler pair unchanged and add no penalty |
| Repair.Triples | scripts/buildutil.py:418-430 | the filler insertions for illegal triples; `PairTriples` states that they leave a lone filler pair unchanged |
| Repair.PairTriples | scripts/buildutil.py:418-430 | the triple rules leave a lone filler pair unchanged |
| Repair.RespellSemivowels | scripts/buildutil.py:432-467 | the semivowel respellings; `PairSemivowels` states that they leave a lone filler pair unchanged |
| Repair.PairSemivowels | scripts/buildutil.py:432-467 | the semivowel rules leave a lone filler pair unchanged |
| Repair.EdgeFillers | scripts/buildutil.py:469-494 | the fillers at the word edges; `EdgeFillersGiveVowel` states that they only add letters and leave no word with consonants but no vowel |
| Repair.EdgeFillersGiveVowel | scripts/buildutil.py:469-494 | the edge rules add at most three filler vowels and remove nothing, and a word holding a consonant comes out holding a vowel |
| Repair.EdgeCleanup | scripts/buildutil.py:496-509 | the cleanup of 'N', "Nəg", double consonants and Russian "ii"; `PairEdges` states that with the edge fillers it turns a lone filler pair into consonant, filler vowel, consonant |
| Repair.PostPhase | scripts/buildutil.py:418-511 | the penalty the last steps add is the number of filler vowels in the final word |
| Repair.RepairedWord | scripts/buildutil.py:300-512 | the penalty a sub-word adds is at least the number of filler vowels in its repaired form |
| Repair.RepairWord | scripts/buildutil.py:300-512 | the body for one sub-word, with its `while count` loop, yields the repaired word and the penalty the specification gives |
| Repair.RepairAll | scripts/buildutil.py:297-512 | one repaired word per sub-word, and a total penalty at least the number of filler vowels in them |
| Repair.RepairAllSnoc | scripts/buildutil.py:300-512 | one more sub-word appends its repaired form and adds its penalty |
| Repair.SubWords | scripts/buildutil.py:294-297 | punctuation becomes spaces and the split yields only non-empty sub-words |
| Repair.Repaired | scripts/buildutil.py:279-514 | the added penalty of a first call is at least the number of filler vowels in the new word |
| Repair.RepairText | scripts/buildutil.py:294-513 | the loop over the sub-words yields the repaired text and added penalty, and the penalty covers every filler vowel |
| Repair.FrenchRuleSeesNonEmptyWord | scripts/buildutil.py:352-357 | no earlier step empties a sub-word, so the `word[-1]` of the French -eil/-ille rule never fails |
| Repair.Unchanged | scripts/buildutil.py:318-505 | a rule whose pattern matches nowhere leaves the word as it is and counts 0 |
| Repair.PairPrePhase | scripts/buildutil.py:300-402 | none of the steps before the pair loop touches a lone filler pair such as "st" |
| Repair.PairPostPhase | scripts/buildutil.py:418-511 | the steps after the pair loop turn a lone filler pair into consonant, filler vowel, consonant, with one penalty point |
| Repair.FillerPairClasses | scripts/buildutil.py:469-473 | the first letter of a filler pair may start a word and the second may end one but not follow another consonant |
| Repair.PairEdges | scripts/buildutil.py:469-499 | the word-edge rules turn a lone filler pair into consonant, filler vowel, consonant |
| Repair.PairGetsFiller | scripts/buildutil.py:469-473 | a lone pair of consonants such as "st" becomes "sət" with a penalty of exactly 1, whatever the language |
| Repair.PairSeparate | scripts/buildutil.py:414-416 | the illegal-pair loop leaves a lone filler pair unchanged |
| Separation.IllegalPairs | scripts/buildutil.py:63-64 | the number of adjacent pairs ILLEGAL_CONS_PAIR_RE matches; `PairsCons` and `TwoPairs` state how it counts, and `SubPairs` that each replacement removes exactly one pair and creates none |
| Separation.PairsCons | scripts/buildutil.py:63-64 | the illegal pairs of a text are those at its first two characters plus those of the rest |
| Separation.SubLength | scripts/buildutil.py:416 | each replacement lengthens the text by one and keeps the first character |
| Separation.SubFillers | scripts/buildutil.py:416 | each replacement inserts exactly one filler vowel |
| Separation.SubPairs | scripts/buildutil.py:416 | each replacement removes exactly one illegal pair and creates none |
| Separation.TwoPairs | scripts/buildutil.py:63-64 | an illegal pair at a position counts once, plus the pairs from the next character on |
| Separation.InsertedFillerPairs | scripts/buildutil.py:416 | a filler vowel between two consonants forms no pair with either |
| Separation.SeparateIllegalPairs | scripts/buildutil.py:412-416 | the loop ends with no consonant of NOT_SYLLABLE_FINAL_NON_SEMIVOWEL directly before one of NOT_SECOND_CONSONANTS, and the word differs only by inserted filler vowels |
| Separation.SeparatePairs | scripts/buildutil.py:414-416 | the `while count` loop computes that result, its termination measured by the number of illegal pairs |
| Similarity.EditDistance | scripts/buildvoc.py:1089 | the Levenshtein distance `editdistance.eval` computes; the lemmas below state symmetry, the bounds by the lengths, and 0 for equal words |
| Similarity.EditDistanceSymmetric | scripts/buildvoc.py:1080-1089 | the edit distance does not depend on the order of the words, which is why the source may sort them first |
| Similarity.EditDistanceAtMostLonger | scripts/buildvoc.py:1089-1090 | the edit distance is at most the longer length, so the ratio compared with 0.5 is at most 1 |
| Similarity.EditDistanceAtLeastDifference | scripts/buildvoc.py:1089 | the edit distance is at least the difference of the lengths |
| Similarity.EditDistanceSelf | scripts/buildvoc.py:1089 | a word is at distance 0 from itself |
| Similarity.StripFillers | scripts/buildvoc.py:1072-1078 | afterwards the words no longer share a leading or trailing filler, and both lost the same number of characters |
| Similarity.StripFillersSymmetric | scripts/buildvoc.py:1075-1078 | stripping shared fillers treats both words alike |
| Similarity.StripFillersSame | scripts/buildvoc.py:1075-1078 | a word stripped against itself stays equal to itself |
| Similarity.Compare | scripts/buildvoc.py:1086-1111 | the comparison of two words without shared outer fillers; `CompareSymmetric` states it does not depend on their order, `CompareNeedsSharedConsonant` that words with consonants are related only when they share one and then whenever the distance is at most half the longer length, `KubSabCompare` gives ("kub", "sab") as (2, not related) |
| Similarity.CompareSymmetric | scripts/buildvoc.py:1080-1111 | the distance and the relatedness are the same for both orders of the words |
| Similarity.CompareNeedsSharedConsonant | scripts/buildvoc.py:1102-1109 | two words with consonants are related only if they share one (N counting as n), and are related when they share one and the distance is at most half the longer length |
| Similarity.CalcDistance | scripts/buildvoc.py:1062-1111 | `calc_distance`; `CalcDistanceCompares`, `CalcDistanceSymmetric`, `CalcDistanceBound`, `CalcDistanceSelf` and `FillerAloneDoesNotRelate` below state what it computes |
| Similarity.CalcDistanceCompares | scripts/buildvoc.py:1062-1111 | calc_distance compares the words without their shared outer fillers, in alphabetical order |
| Similarity.CalcDistanceSymmetric | scripts/buildvoc.py:1062-1111 | calc_distance gives the same distance and relatedness for both orders of the words |
| Similarity.CalcDistanceBound | scripts/buildvoc.py:1062-1111 | the distance is at most the length of the longer word |
| Similarity.CalcDistanceSelf | scripts/buildvoc.py:1062-1111 | a word is at distance 0 from itself and related to itself |
| Similarity.KubSabDistance | scripts/buildvoc.py:1089 | "kub" and "sab" are at edit distance 2 |
| Similarity.FillerAloneDoesNotRelate | scripts/buildvoc.py:1072-1078 | "kubə" and "sabə" are compared as "kub" and "sab", at distance 2, and are not related |
| Similarity.MinDist | scripts/buildvoc.py:1129-1134 | at most 1000 and at most the distance to every other word, and equal to one of them unless it stayed 1000 |
| Similarity.MinDistSnoc | scripts/buildvoc.py:1131-1134 | one more word lowers the minimum exactly when it is closer |
| Similarity.SimPenalty | scripts/buildvoc.py:1124-1142 | the raw penalty is at most 1000 per other language |
| Similarity.RelatedOf | scripts/buildvoc.py:1131-1136 | the related candidates of a list are some of its candidates, in order |
| Similarity.RelatedOfSnoc | scripts/buildvoc.py:1135-1136 | one more candidate is appended exactly when it is related |
| Similarity.RelatedAll | scripts/buildvoc.py:1126-1136 | related_cands gains entries only for other languages looked at, and keeps every other entry |
| Similarity.AddRelatedSnoc | scripts/buildvoc.py:1136 | appending candidates one at a time is appending them all at once |
| Similarity.WordMap | scripts/buildvoc.py:1132 | the words compared are the candidates' words, list by list |
| Similarity.CalcSimPenalties | scripts/buildvoc.py:1113-1142 | every candidate of the language gets as raw_psim the sum over the other eligible languages of its minimum distance, and the related candidates of each appended to related_cands |
| Similarity.ScoreAll | scripts/buildvoc.py:1124-1142 | the outer loop gives each candidate its penalty and its related candidates |
| Similarity.ScoreOne | scripts/buildvoc.py:1124-1142 | the loop body gives one candidate its penalty and related candidates |
| Similarity.PenaltyOf | scripts/buildvoc.py:1125-1139 | one turn of the outer loop sums the minimum distances and appends the related candidates as they are found |
| Similarity.MinDistTo | scripts/buildvoc.py:1129-1136 | the innermost loop finds the minimum distance to one list and appends its related candidates |
| Similarity.Shown | scripts/buildvoc.py:1159-1163 | the shown candidates come from the non-empty lists, less the language-less one in word mode |
| Similarity.MinPsim | scripts/buildvoc.py:1167 | the lowest raw penalty, which some candidate has |
| Similarity.MaxPsim | scripts/buildvoc.py:1166 | the highest raw penalty, which some candidate has |
| Similarity.Normalized | scripts/buildvoc.py:1176-1185 | the score of a raw penalty within the range: `NormalizedRange` states that it lies between 0 and 1, is 1 for the lowest penalty and 0 for the highest, and `NormalizedAntitone` that a lower penalty never scores lower |
| Similarity.NormalizedRange | scripts/buildvoc.py:1176-1185 | scores lie between 0 and 1; the lowest penalty scores 1 and, when the penalties differ, the highest scores 0 |
| Similarity.NormalizedAntitone | scripts/buildvoc.py:1178 | a lower raw penalty never scores lower |
| Similarity.StoreNormalizedSimPenalties | scripts/buildvoc.py:1144-1188 | returns the shown candidates and gives each the score of its raw penalty within the range of all of them; every candidate that is not shown keeps its score |
| Similarity.Normalize | scripts/buildvoc.py:1165-1185 | the range of the raw penalties, then every shown candidate gets its normalised score; candidates outside the list keep theirs |
| Similarity.GatherShown | scripts/buildvoc.py:1159-1163 | the first loop gathers exactly the shown candidates |
| Similarity.StoreScores | scripts/buildvoc.py:1176-1185 | the second loop gives each candidate the score of its raw penalty within the range; candidates outside the list keep theirs |
| Similarity.ScoresOrdered | scripts/buildvoc.py:1148-1150 | normalised scores lie between 0 and 1, and a lower raw penalty never scores lower |
| Ranking.KeyLess | scripts/buildvoc.py:1943-1946 | the order of the sort key of `print_cands`: more related candidates first, then higher total score, then the external form; `KeyLessIrreflexive`, `KeyLessTotal` and `KeyLessTransitive` state that it is a strict total order |
| Ranking.KeyLessIrreflexive | scripts/buildvoc.py:1943-1946 | no sort key comes before itself |
| Ranking.KeyLessTotal | scripts/buildvoc.py:1943-1946 | of two different sort keys exactly one comes first |
| Ranking.KeyLessTransitive | scripts/buildvoc.py:1943-1946 | the order on sort keys is transitive |
| Ranking.Entries | scripts/buildvoc.py:1943-1951 | one entry per candidate, in order, holding that candidate and its sort key, normalised word, length, dscore and constraint failure |
| Ranking.Insert | scripts/buildvoc.py:1943-1946 | inserting an entry adds exactly one |
| Ranking.SortEntries | scripts/buildvoc.py:1943-1946 | sorting keeps the number of entries |
| Ranking.InsertPermutes | scripts/buildvoc.py:1943-1946 | inserting adds exactly that entry |
| Ranking.InsertKeys | scripts/buildvoc.py:1943-1946 | every entry after insertion is the new one or an old one |
| Ranking.InsertSorted | scripts/buildvoc.py:1943-1946 | inserting into a sorted list keeps it sorted |
| Ranking.SortEntriesSorted | scripts/buildvoc.py:1943-1946 | the candidates are ordered by more related natlang candidates first, then higher total score, then external form, and are the candidates given, rearranged |
| Ranking.Skip | scripts/buildvoc.py:1953-1962 | "word exists" exactly when the normalised word exists and duplicates are not allowed; offered exactly when it does not (or duplicates are allowed), the word is long enough, the dscore is above 0.6 and no constraint fails; a constraint rejection carries its reason |
| Ranking.Kept | scripts/buildvoc.py:1939-1964 | the offered candidates are some of the sorted ones |
| Ranking.KeptSnoc | scripts/buildvoc.py:1961-1964 | one more entry is offered exactly when no skip reason applies |
| Ranking.BestScore | scripts/buildvoc.py:1937 | the best total score is at least every candidate's and is some candidate's |
| Ranking.PrintCands | scripts/buildvoc.py:1920-1968 | an empty list gives nothing; otherwise the lines follow the sorted order, a star marks exactly the candidates with the best score, the skipped ones carry their reason, and the offered ones are returned |
| Ranking.Present | scripts/buildvoc.py:1939-1966 | the loop produces one line per sorted entry with its star and prefix, and returns the offered candidates |
| Ranking.KeptNumbering | scripts/buildvoc.py:1961-1963 | the candidate numbered m + 1 is the m-th offered one: the numbers run 1, 2, 3, ... in sorted order |
| Ranking.SomeLineStarred | scripts/buildvoc.py:1937-1948 | a non-empty list has a line with a star |
| Transliteration.LongestMatch | scripts/buildvoc.py:915-923 | the longest prefix of length 1 to n that is a key, or 0 when there is none |
| Transliteration.Segments | scripts/buildvoc.py:912-930 | the segments the longest-match loop takes; `SegmentsPartition`, `FirstSegmentIsLongest` and `SegmentsAtMostLength` state that they spell the word, take the longest key first and are no more than the characters |
| Transliteration.SegmentsPartition | scripts/buildvoc.py:912-930 | the segments consumed make up the word exactly, and every matched key is in the table and 1 to maxkeylen characters long |
| Transliteration.FirstSegmentIsLongest | scripts/buildvoc.py:912-930 | the first step takes the longest key that is a prefix of the word, or copies the first character when no key of length 1 to maxkeylen fits |
| Transliteration.FlaggedAtMostMatched | scripts/buildvoc.py:918-930 | a copied character adds no penalty, and the penalty is at most the number of steps |
| Transliteration.SegmentsAtMostLength | scripts/buildvoc.py:912-930 | each step removes at least one character, so there are at most as many steps as characters and the penalty is at most the word length |
| Transliteration.SegmentsStep | scripts/buildvoc.py:912-930 | one turn of the loop takes one segment and leaves the rest after it |
| Transliteration.StepContribution | scripts/buildvoc.py:918-930 | a matched key adds its output and, when flagged, one penalty point; a copied character adds itself |
| Transliteration.ConvertStep | scripts/buildvoc.py:912-930 | one turn of the loop keeps its invariant |
| Transliteration.FindLongest | scripts/buildvoc.py:915-923 | the inner loop, counting down, finds the longest matching prefix |
| Transliteration.Convert | scripts/buildvoc.py:908-930 | the `while rest_word` loop terminates with the converted text and the table penalty of the segments |
| Transliteration.MaxKeyLength | scripts/buildvoc.py:907 | no key is longer than maxkeylen |
| Transliteration.FirstSegmentLongestKey | scripts/buildvoc.py:912-923 | with maxkeylen as the longest key, any key that is a prefix of the rest is matched or beaten by a longer one |
| Transliteration.AddDefaults | scripts/buildvoc.py:394-400 | space, hyphen and full stop map to a space without penalty unless the table already lists them; every listed key is kept |
| Validation.Valid | scripts/buildutil.py:516-549 | what `validate` accepts: no character outside the internal alphabet and every sub-word well formed; `Candidates.Candidate.Validate` states that it returns None exactly for such a word, and `CheckWord` and `CheckCluster` state the per-word and per-cluster tests |
| Validation.NucleusAt | scripts/buildutil.py:534 | a nucleus is at most two characters long and lies within the word; no nucleus means no vowel at that position |
| Validation.SplitFrom | scripts/buildutil.py:534 | splitting at the nuclei yields at least one part |
| Validation.Clusters | scripts/buildutil.py:534 | a sub-word has at least one cluster |
| Validation.SplitFromNoVowels | scripts/buildutil.py:534 | the parts between the nuclei hold no vowel |
| Validation.ClustersHaveNoVowels | scripts/buildutil.py:532-534 | no cluster of a sub-word contains a vowel: every vowel is inside a nucleus |
| Validation.CheckCluster | scripts/buildutil.py:537-548 | None exactly when the cluster passes the word-final and syllable-initial checks |
| Validation.CheckWord | scripts/buildutil.py:531-548 | None exactly when every cluster of the sub-word passes |

## Left out

- File, CSV and gzip input and output are not modelled; the logic works on in-memory rows and records instead. This covers `read_dicts_from_file`, `dump_dicts`, the CSV and Markdown writers of the WALS and PHOIBLE scripts, and the loading in `VocBuilder.__init__`.
- Downloading Wikipedia pages is not modelled, because it needs the network. The same goes for `title_to_filename`, which percent-encodes titles as section 2.1 of RFC 3986 describes.
- `_normalize_to_millions` is not modelled, because it parses and scales floating-point text.
- The WALS area and value lookups `_find_area_name` and `_collect_feature_values` are not modelled, because they only read the data files.
- Floating point is modelled with exact `real` numbers throughout. This covers scores, relative frequencies, Python's half-even `round`, the `{:g}` formatting, and the PHOIBLE mean and median.
- The command line is not modelled, because it is interaction rather than logic. This covers argparse, the `run` dispatch, the interactive selection and commit steps, and `scripts/phonstudy.py`.
- Logging is not modelled. `LOG.warn` and `LOG.info` calls have no effect in the model. An example is the warning after a failed validation in `mk_candidate`.
- `show_original` and `show_info` are not modelled, because they only build log text.
- The `lru_cache` memoisation of `calc_distance` and the conversion tables is not modelled. It does not change results, so plain functions stand in for it. The explicit `candi_cache` of `mk_candidate` is modelled.
- Python exceptions (KeyError, IndexError, ValueError) become a `found = false` flag, `None`, or an `Err` result. Nothing is raised. In particular, `min_length` on an entry without a class raises IndexError in the source and gives `Err` in the model.
- Similarity.CalcDistance: requires `Comparable`. Once the shared filler vowels are stripped, two words that are both empty make the source divide by zero, and the model excludes that case.
- CandidateConstraints.ParseDecimal: stands in for Python's `float()`. It accepts only an optional sign and digits with at most one '.', at least one digit in all. It rejects "1e1", "inf", "nan" and "1_0", which Python accepts, so a constraint whose number uses those forms is an `Err` in the model.
- Merging.ParseInt: stands in for Python's `int()`. It accepts an optional sign and decimal digits with surrounding whitespace, but not underscores or non-ASCII digits.
- Wordlist.NumberOf: reads numbers with ParseDecimal and ParseInt above, with the same limits.
- Scan.IsWordChar: approximates Python's Unicode `\w` as ASCII letters, digits and '_', plus every non-whitespace character from U+00C0 on except '×' and '÷'. The `\b` rules of pre- and postprocessing inherit this approximation.
- Text.LowerChar: changes case only for ASCII and Latin-1 letters. Python's `lower()` covers all of Unicode. Util.Capitalize and the lower-casing in Preprocess and MkCandidate inherit this.
- Text.UpperChar: changes case only for ASCII and Latin-1 letters. It maps 'ß' to itself, where Python's `'ß'.upper()` gives "SS".
- Building.IsLatinLetter: replaces the `unicodedata.name(...)` test of `has_latin_letter` with fixed code-point ranges. The ranges are A-Z, a-z, U+00C0-U+00D6, U+00D8-U+00F6, U+00F8-U+02AF and U+1E00-U+1EFF.
- Preprocessing.FrenchMarkingInert: records dead code in the French branch of `preprocess_candidate_word`. The branch marks 'éa', 'ée' and 'oê' after the tone table has already removed 'é' and 'ê', so the marking never fires. The model keeps the three replacements as written.
- Util.DiscardTextInBrackets: its properties are proved for two cases only. A text without '[' is unchanged, and a single closing one-line group is removed with the whitespace before it (Util.DiscardTrailingGroup). Texts with several groups are not proved.
- Util.EliminateParens: its properties are proved for two cases only. A text without '(' is only stripped, and a single closing group is removed with the whitespace before it (Util.EliminateTrailingParens). Texts with several groups are not proved.
- Preprocessing.IndonesianSteps: deliberately uses the corrected order of the meng- rules (Preprocessing.PreIndonesianVerb), not the order written in `scripts/buildvoc.py:620-636`. It differs from the source on Indonesian verbs starting with "meny": "menyapu" becomes "sapu" here and "nyapu" in the source. Preprocessing.IndonesianVerbAsWritten models the order written.
- Preprocessing.PreLanguage: inherits the corrected meng- order from Preprocessing.IndonesianSteps, so it differs from the source on Indonesian verbs starting with "meny".
- Preprocessing.Preprocess: inherits the corrected meng- order from Preprocessing.IndonesianSteps, so it differs from the source on Indonesian verbs starting with "meny" ("menyapu" becomes "sapu", not "nyapu").
- Building.Adapt: inherits the corrected meng- order through Preprocessing.Preprocess, so it differs from the source on Indonesian verbs starting with "meny".
- Building.VocBuilder.MkCandidate: inherits the corrected meng- order through Building.Adapt, so it differs from the source on Indonesian verbs starting with "meny".
- Util.SplitOnSep: the separator must not be all whitespace. Every caller passes ", ", " | " or "; ".

## Findings

| source | as written | input that shows it | evidently intended | confidence | as-written member | corrected member |
|---|---|---|---|---|---|---|
| scripts/buildvoc.py:620-636 | the `^me(?=[lmnrwy])` rule runs before the `^meny` rule; every "meny" word has 'n' after "me", so the "meny" rule can never fire | "menyapu" becomes "nyapu" | "meny" becomes "s", so "menyapu" becomes "sapu" | not executed | Preprocessing.IndonesianVerbAsWritten (Preprocessing.MenyRuleUnreachable) | Preprocessing.PreIndonesianVerb (Preprocessing.MenyBecomesS) |
| scripts/parsewikt.py:317-319 | by operator precedence, the `startswith('disused:')` test is outside the `trans.code == 'es'` condition | a French translation "disused: x" is skipped | only Spanish translations marked as disused are skipped | not executed | Wiktionary.SkipTransAsWritten (Wiktionary.DisusedSkipsAnyLanguage) | Wiktionary.SkipTrans (Wiktionary.SkipVersionsAgree) |
| scripts/parselanguagelist.py:112-113 | the end marker is searched from where the start marker begins, so it can be found inside the start marker | text "a-b-c" with '-' as both markers gives an empty fragment | the end marker is searched after the start marker, giving "b" | not executed | LanguageList.FragmentAsWritten (LanguageList.FragmentOverlap) | LanguageList.Fragment (LanguageList.FragmentsAgree) |
