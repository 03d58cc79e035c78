# Citation kernels: a verified model

A citation converter has a web front end, a Node server and a Python extraction service. Most of it is plumbing;
the algorithms that decide what a user sees are small and self-contained. This project models them in Dafny and
proves what they are for. Procedures that loop and assign are methods, objects that change are classes, and the
functions they are proved against carry the theorems.

- **Edit distance** (`EditDistance`): the two-row Levenshtein loop computes the least number of insertions, deletions
  and substitutions, which is a metric; the similarity ratio inherits its laws.
- **Duplicate diff** (`HtmlEscape`, `Subsequence`, `Marks`, `DuplicateDiff`, `DuplicateLaws`): the LCS table and its greedy
  walk leave the fewest words highlighted that any common subsequence could, the HTML reads back as the text, and
  what is cut, compared and marked is told in the characters of the texts.
- **BIO tagging** (`BioTags`, `BioDecoders`, `BioMetrics`, `BioAlignment`, `AlignedEntities`): two decoders, the validity
  check, the exact-match metric and the sub-token aligner agree on one notion of entity.
- **Clustering** (`References`, `Clustering`, `ClusterLaws`, `ClusterLoop`, `WinnerElection`): the capped greedy clusterer with its
  work-key index, as objects shared between a list and a map, and the election of each cluster's representative.
- **Canonical JSON** (`JsonReader`, `ObjectKeys`, `StableJson`, `CanonicalJson`): the text whose hash identifies evidence
  is read by a reader of RFC 8259 as the value it stands for, so it is injective, and canonical on exactly the values without ties that the listing of keys leaves open.
- **RIS** (`Persons`, `PersonLists`, `Ris`, `RisLines`, `RisRoundTrip`): what the reader makes of names, lines and files,
  and which references come back from what the writer emits.
- **Model registry** (`RegistryProtocol`, `ModelRegistry`), **worker pools** (`WorkerPool`) and **metrics**
  (`ServiceMetrics`): state machines over every interleaving of lock-protected blocks or awaits, and the classes whose
  methods are their steps.
- **Live reference count** (`StructuralCount`, `MarkerLaws`): the line scan, and why the marker counter beside it never matters.
- **Field spans** (`LookupWords`, `TokenWindow`, `FieldSpans`): the pruned search for a field's value among the tokens
  finds what the full search finds, and spans stay disjoint.

`Text`, `Numbers` and `Wrappers` hold shared definitions.

Statements of the source that turned out to hold only under a condition, and the condition:

- The text of a JSON value is independent of the order in which entries were inserted if and only if no object inside it
  has two keys that the comparison ties and neither of which is an array index; array indices are always listed first, in
  ascending order (`CanonicalJson.CanonicalExactlyWhenApart`).
- A person comes back from RIS if and only if it has a family name, both parts are trimmed and free of commas, nothing
  in its written form separates names, and a missing given name leaves a family of one word (`Persons.NameRoundTrip`).
  A plain text comes back if and only if it is written as such a person would be (`Persons.AuthorTextRoundTrip`).
- An export comes back if and only if every reference does: its authors survive, its texts are trimmed and without line
  feeds, its year has at most four characters, and it has an author or a title (`RisRoundTrip.ExportRoundTrip`, which
  leaves open only exports with line feeds in a journal that another title replaces).
- A source token without sub-tokens can make an entity vanish or fuse with its neighbour (`AlignedEntities.FusedSpans`);
  aligned labels decode to the moved source entities if and only if every entity survives (`AlignedEntities.DecodeAligned`).
- Blank comparison tokens never change how many words are highlighted. They never change which, whatever the text is
  compared with, if and only if no word of it repeats (`DuplicateDiff.BlanksKeepTheMarks`).
- The registry's counter is the resident size if and only if nothing is in flight and no step has overwritten an entry
  (`RegistryProtocol.ExactUnlessOverwritten`); two threads loading one model do that (`RegistryProtocol.DoubleLoadLeaks`).
- The APA preference can cost four points of score (`WinnerElection.FourPointsLost`), and never more in a cluster of at most five.

## Model

| member | source | states |
|---|---|---|
| EditDistance.Levenshtein | ml-service/app/bio_eval_metrics.py:63-77 | the two-row loop returns the table value, which is the least length of an edit script from one string to the other |
| EditDistance.NextRow | ml-service/app/bio_eval_metrics.py:72-76 | one pass of the inner loop turns a correct row into the next correct row |
| EditDistance.DistIsEditDistance | ml-service/app/bio_eval_metrics.py:63-77 | some script of single-character edits of exactly this length works, and no shorter script does |
| EditDistance.DistZero | ml-service/app/bio_eval_metrics.py:63-77 | the distance is zero exactly on equal strings |
| EditDistance.DistSymmetric | ml-service/app/bio_eval_metrics.py:63-77 | swapping the arguments does not change the distance |
| EditDistance.DistTriangle | ml-service/app/bio_eval_metrics.py:63-77 | going through a third string is never shorter |
| EditDistance.DistBounds | ml-service/app/bio_eval_metrics.py:63-77 | the distance lies between the difference of the lengths and the longer length |
| EditDistance.SimilarityRatio | ml-service/app/bio_eval_metrics.py:80-87 | one minus the distance over the longer length, with the empty cases as in the source |
| EditDistance.RatioLaws | ml-service/app/bio_eval_metrics.py:80-87 | the ratio is in [0,1], is 1 exactly for equal strings, 0 exactly when no alignment saves an edit, and symmetric |
| HtmlEscape.EscapeCons | PortableOutput.tsx:235-242 | the five sequential replacements are one character-by-character map, so their order only matters for the ampersand |
| HtmlEscape.UnescapeEscape | PortableOutput.tsx:235-242 | reading the entities back gives the original text |
| HtmlEscape.EscapeIsInert | PortableOutput.tsx:235-242 | escaped text holds no angle bracket and no quote |
| Subsequence.LcsIsLongest | PortableOutput.tsx:388-393 | the table's first entry is the length of some common subsequence and no common subsequence is longer |
| Subsequence.TracebackIsLongest | PortableOutput.tsx:395-404 | the greedy walk from any cell yields a common subsequence as long as the cell says |
| Marks.ReadMarked | PortableOutput.tsx:412 | a marked stretch of text counts once and strips to its text |
| DuplicateDiff.FillTable | PortableOutput.tsx:388-393 | every cell of the array holds the longest common subsequence of the two suffixes |
| DuplicateDiff.WalkTable | PortableOutput.tsx:394-404 | the walk over the array collects the token indexes of a longest common subsequence |
| DuplicateDiff.RenderTokens | PortableOutput.tsx:405-413 | the rendering loop marks exactly the unmatched words and counts the marks |
| DuplicateDiff.BuildDuplicateDiffMarkup | PortableOutput.tsx:382-415 | the count is the number of words minus the longest common subsequence with the other text's words; stripping the marks and undoing the escape gives the text; one mark per difference; the two shortcuts |
| DuplicateDiff.MarksAreMinimal | PortableOutput.tsx:388-413 | as many words are marked as a longest common subsequence leaves over, so no common subsequence leaves fewer |
| DuplicateDiff.MarkupReadsBack | PortableOutput.tsx:405-414 | the HTML without its marks unescapes to the text, and the number of marks is the difference count |
| DuplicateDiff.ShortcutAgrees | PortableOutput.tsx:383 | for equal texts the table would give no difference and the plain escaped text, as the shortcut does |
| DuplicateDiff.BlanksAreNeutral | PortableOutput.tsx:387 | the blank tokens left among the comparison words never change the length of the longest common subsequence |
| DuplicateDiff.BlanksKeepTheMarks | PortableOutput.tsx:387-404 | for every text: whatever it is compared with, the matched words are those matched without the blank tokens, if and only if no word of the text repeats |
| DuplicateDiff.RepeatedWordMoves | PortableOutput.tsx:387-404 | for every repeated word, comparing with a blank and that word matches other tokens than comparing with the word alone |
| DuplicateDiff.BlanksMoveTheMark | PortableOutput.tsx:387 | the smallest such pair: "a a" against " a" |
| DuplicateDiff.TokensCutTheText | PortableOutput.tsx:384-385 | the tokens joined again are the text, and each is blank or without a space |
| DuplicateLaws.TokensAlternate | PortableOutput.tsx:384-385 | for every non-empty text: the tokens are the one way to cut it into non-empty pieces that are in turn white space and free of it |
| DuplicateLaws.NormalizedConcat | PortableOutput.tsx:386 | tokens are normalised character by character |
| DuplicateLaws.PunctuationIsDropped | PortableOutput.tsx:386 | exactly the twelve characters . , ; : ( ) [ ] { } and the two quotes are dropped |
| DuplicateLaws.LettersAreLowered | PortableOutput.tsx:386 | the twenty-six capital letters become the small ones, and every other character that stays is unchanged |
| DuplicateLaws.WhatAWordIs | PortableOutput.tsx:386 | a word is a token without spaces in which some character is none of the twelve |
| DuplicateLaws.WordsInOrder | PortableOutput.tsx:386 | the words compared are all word tokens, in order |
| DuplicateLaws.SidesAreCutAlike | PortableOutput.tsx:386-387 | for every text: the comparison side's entries other than blanks are the words it has as the first side |
| DuplicateLaws.WalkRule | PortableOutput.tsx:396-404 | which longest common subsequence is matched: equal words at once, and otherwise the text's word is passed over exactly when some longest common subsequence of what is left does without it |
| DuplicateLaws.MarkupShows | PortableOutput.tsx:405-413 | the HTML is the escaped tokens, and exactly the word tokens that the walk leaves unmatched are in a mark element |
| BioDecoders.BioSequenceValid | ml-service/app/bio_eval_metrics.py:149-164 | the loop accepts exactly the sequences in which every I tag continues an entity of its label |
| BioDecoders.ExtractBioEntities | ml-service/tools/train_bio_bundle.py:398-422 | for O, B and I tags the loop returns the entities of the specification, in order |
| BioTags.EntitiesAreOrdered | ml-service/tools/train_bio_bundle.py:398-422 | entities are non-empty, disjoint and in order |
| BioTags.EntitiesAreMaximal | ml-service/tools/train_bio_bundle.py:398-422 | an entity begins where its label starts, carries the label throughout and cannot be extended |
| BioTags.EncodeDecode | ml-service/app/bio_eval_metrics.py:149-164 | re-encoding the decoded entities gives the tags back exactly when the validity check accepts them |
| BioTags.DecodeEncode | ml-service/tools/train_bio_bundle.py:398-422 | decoding an encoded ordered list of entities gives the list back |
| BioDecoders.DeriveExpectedFields | ml-service/app/bio_training_dataset.py:272-318 | a length mismatch and a tag without a dash other than "O" are the only errors; otherwise the second decoder flushes the first one's entities, in the same order |
| BioDecoders.PeopleAreListed | ml-service/app/bio_training_dataset.py:244-269 | authors and editors hold the value of every such span, in order, and nothing else |
| BioDecoders.OthersKeepTheFirst | ml-service/app/bio_training_dataset.py:244-269 | any other field is present exactly when a span has a value for it; a first value that is not text stays, and a first text is joined with every later text, in order |
| BioDecoders.FieldNames | ml-service/app/bio_training_dataset.py:40-64 | every core feeds the field of its own name in camel case, except that author feeds authors |
| BioMetrics.ComputeEntityExactMetrics | ml-service/tools/train_bio_bundle.py:347-395 | true, predicted and correct counts are the sizes of the two entity sets and of their intersection; precision and recall are the shares of correct entities, F1 times the number of true and predicted entities is twice the number of correct ones, and each is 0 where it has no entities |
| BioMetrics.SharesOfEntities | ml-service/tools/train_bio_bundle.py:358-360 | for all counts: the harmonic mean of the two shares is twice the correct entities over all true and predicted ones |
| BioMetrics.EntitiesDetermineTags | ml-service/tools/train_bio_bundle.py:347-395 | two valid rows of one length with the same entities have the same tags |
| BioMetrics.PerfectScore | ml-service/tools/train_bio_bundle.py:347-395 | on valid rows F1 is 1 exactly when every tag is right and there is an entity to find |
| BioAlignment.AlignRow | ml-service/tools/train_bio_bundle.py:140-181 | it fails exactly on differing lengths and on a tag without a dash other than "O" whose token is found; in every other case each token is placed at its first occurrence from the end of the last one found, or else at its first occurrence, and each label is that of the last tagged token placed over it, B on the first piece of a beginning and I elsewhere, or O; when the text's pieces are the pieces of its tokens, the fallback scan never runs and the labels are the tags expanded over the pieces |
| AlignedEntities.DecodeAligned | ml-service/tools/train_bio_bundle.py:147-181 | the expanded labels decode to the source entities with boundaries moved through prefix sums, if and only if every entity survives |
| AlignedEntities.NothingDropped | ml-service/tools/train_bio_bundle.py:154-156 | every entity survives when no token is without pieces |
| AlignedEntities.FusedSpans | ml-service/tools/train_bio_bundle.py:154-156 | a token without pieces between two entities of a label fuses them |
| Clustering.PlaceKeeps | frontend/shared/clustering.ts:376-459 | placing one reference keeps the index invariant, the ordered partition into clusters of one to five, and the reason each member has for being where it is |
| Clustering.RunKeeps | frontend/shared/clustering.ts:361-459 | so all three hold after every number of references |
| Clustering.LookupIsComplete | frontend/shared/clustering.ts:382-389 | a work key is indexed exactly when some cluster holds it, and the lookup offers room exactly when some cluster holding it has room |
| ClusterLaws.RunPlaces | frontend/shared/clustering.ts:376-459 | every reference joins the cluster with fewer than five members that has its work key; if there is none, the first with fewer than five members in which one title scores 85 or more and one similarity reaches the threshold; and only if there is none of these it founds a cluster; no other cluster changes |
| ClusterLaws.PlacedIsOne | frontend/shared/clustering.ts:376-459 | what comes after a placement is determined by what was before |
| ClusterLaws.TenTimesTheScore | frontend/shared/clustering.ts:419-436 | the integers compared are ten times half the title score plus three tenths of the author score plus two tenths of the journal score, a missing text scoring 100, less five for each year between two years, up to 50 |
| ClusterLaws.MetaIsLast | frontend/shared/clustering.ts:367-374 | of references that share an id the last one's texts are compared |
| ClusterLoop.ScanMembers | frontend/shared/clustering.ts:396-440 | once the lookup has failed, the equal-work-key branch never fires, and the accumulated bests decide acceptance |
| ClusterLoop.ScanClusters | frontend/shared/clustering.ts:392-446 | the scan stops at the first cluster with room that accepts the reference |
| ClusterLoop.PlaceReference | frontend/shared/clustering.ts:376-459 | the objects and the index after one turn stand for the next state of the specification |
| ClusterLoop.ElectWinners | frontend/shared/clustering.ts:461-617 | every cluster with more than one member gets the id of the member the election names, and nothing else changes |
| ClusterLoop.ClusterCitations | frontend/shared/clustering.ts:361-621 | fresh clusters come back for exactly the groups with more than one member, in order, with members in input order that carry the cluster's id, and with the elected member |
| ClusterLoop.SharedAreAll | frontend/shared/clustering.ts:620 | the groups returned are all those of two or more members, each once and in order |
| ClusterLoop.NameIsNumbered | frontend/shared/clustering.ts:450 | the ids are C1, C2 and so on |
| ClusterLoop.NamesDiffer | frontend/shared/clustering.ts:450 | different clusters have different ids |
| WinnerElection.CascadeIsLexicographic | frontend/shared/clustering.ts:499-535 | the five successive filters leave exactly the members whose vector of five flags is lexicographically greatest, and at least one |
| WinnerElection.SurvivorsHaveTheFlags | frontend/shared/clustering.ts:499-535 | a member survives if and only if no member's flags are lexicographically greater: authority, style not failed, year, no et al., conference type, in this order |
| WinnerElection.WalkIs | frontend/shared/clustering.ts:537-580 | the walk starts with the first survivor; a later one takes over when it has the higher score, or the same and the higher confidence, or these and more filled fields, or is the near-equivalent APA variant of one that is not APA and equal in all three or one or two points below |
| WinnerElection.ElectWinner | frontend/shared/clustering.ts:499-602 | the winner is the walk's best, except that where the walk did not use the preference it is the first survivor in APA style with another id, a score at most two points lower and a similarity of at least 90, when there is one; no member has lexicographically greater flags, and its score trails the best survivor by at most 2 * (n / 2) |
| WinnerElection.WalkTrails | frontend/shared/clustering.ts:537-580 | after n candidates the running best trails the top score by at most two for each APA candidate that can follow another, and not at all while the preference is unused |
| WinnerElection.ElectedIsNearBest | frontend/shared/clustering.ts:537-602 | the final bias adds no more than that bound: 2 * (n / 2) in general, 2 when the loop did not use the preference |
| WinnerElection.BiasCostsAtMostFour | frontend/shared/clustering.ts:537-602 | in a cluster of at most five references with distinct ids the winner is at most four points below any survivor |
| WinnerElection.FourPointsLost | frontend/shared/clustering.ts:569-578 | a cluster of four, with scores and near-equivalence as the source has them for references that differ in style, confidence and filled fields only, whose winner is four points below the best |
| WinnerElection.ElectWithoutApa | frontend/shared/clustering.ts:537-565 | without APA input the winner is the first survivor that none beats by score, confidence and filled fields |
| StableJson.ReadPrinted | server/scripts/harvest-style-gold-candidates.ts:383-394 | a reader of the grammar of RFC 8259 reads a printed value back, whatever delimiter follows |
| StableJson.ReadValue | server/scripts/harvest-style-gold-candidates.ts:383-394 | printed values are prefix-free: equal texts with anything after them mean equal values and equal rests |
| StableJson.QuoteIsRead | server/scripts/harvest-style-gold-candidates.ts:385-393 | whatever follows it, a quoted string is a string of section 7 of RFC 8259 for exactly its characters, by a reader that knows nothing of the printer |
| StableJson.EscapesAreNeeded | server/scripts/harvest-style-gold-candidates.ts:385-393 | only the quote, the backslash and control characters are escaped, in two characters where RFC 8259 has such an escape, with small hexadecimal digits otherwise |
| StableJson.QuoteConcat | server/scripts/harvest-style-gold-candidates.ts:385-393 | a text is quoted character by character |
| StableJson.StringifyIsInjective | server/scripts/harvest-style-gold-candidates.ts:383-394 | equal texts come only from values equal up to the order of object entries, for any key comparison |
| CanonicalJson.StringifyIsRead | server/scripts/harvest-style-gold-candidates.ts:383-394 | the text of a value is a JSON text of RFC 8259 for a value equal to it up to the order of entries, in which every object lists its keys in the order of the comparison |
| CanonicalJson.StringifyIsCanonical | server/scripts/harvest-style-gold-candidates.ts:383-394 | the text of a value without ties is the text of another value exactly when the two are equal up to the order of entries |
| CanonicalJson.CanonicalExactlyWhenApart | server/scripts/harvest-style-gold-candidates.ts:390-393 | for every value whose objects list array indices first, as Object.entries does: all such values equal to it up to the order of entries have its text, if and only if no object inside it has two tied keys neither of which is an array index |
| CanonicalJson.TieSplits | server/scripts/harvest-style-gold-candidates.ts:390-393 | for every value with such a tie, however deep, an equal value an object can list, with another text |
| CanonicalJson.SortIsStable | server/scripts/harvest-style-gold-candidates.ts:390-392 | sorting keeps tied entries in their order |
| CanonicalJson.SortRefined | server/scripts/harvest-style-gold-candidates.ts:390-392 | entries listed array indices first are sorted as by the comparison that decides ties with an array index by the listing |
| ObjectKeys.RefinedIsOrder | server/scripts/harvest-style-gold-candidates.ts:390-392 | that comparison is an order when localeCompare is |
| ObjectKeys.NumberIsInjective | server/scripts/harvest-style-gold-candidates.ts:390 | different array indices are different numbers, so the listing leaves no tie between them |
| Persons.NameRoundTrip | server/scripts/ingest-bibliography.ts:45-66 | for every person: it is read back from its written form if and only if it has a family name, both parts are trimmed and free of commas, nothing in it separates names, and a missing given name leaves a family of one word |
| Persons.AuthorTextRoundTrip | server/scripts/ingest-bibliography.ts:45-66 | for every text: it is read as one person whose written form is the text, if and only if it is non-empty, trimmed, free of separators, and either one word without a comma or has one comma with a character before it, a space and a character after it |
| Persons.RestoredIsOne | server/scripts/ingest-bibliography.ts:45-66 | a line in which any name is read that is written as the text holds just that one name |
| PersonLists.LastWordIsFamily | server/scripts/ingest-bibliography.ts:59-64 | for every name of several words without a comma, with any white space between the words: the last word is the family name, the words before it, one space apart, are the given name |
| PersonLists.GivenThenFamily | server/scripts/ingest-bibliography.ts:59-64 | in particular `given family` is read as that person |
| PersonLists.OneWordIsFamily | server/scripts/ingest-bibliography.ts:59-64 | a single word is a family name without a given name |
| PersonLists.FamilyBeforeComma | server/scripts/ingest-bibliography.ts:52-58 | the text before the first comma is the family name and the text up to the next comma or the end is the given name, whatever white space surrounds the comma |
| PersonLists.SemicolonSeparates | server/scripts/ingest-bibliography.ts:47-50 | for all texts: a semicolon between them separates the names of the first from those of the second |
| PersonLists.AndSeparates | server/scripts/ingest-bibliography.ts:47-50 | so does the word `and` in white space, unless the first text ends in white space or in another such `and` |
| PersonLists.LineFeedSeparates | server/scripts/ingest-bibliography.ts:47-50 | so does a line feed that does not belong to the white space around that word |
| PersonLists.SeparatorFreeIffNothingSeparates | server/scripts/ingest-bibliography.ts:48 | a text is one name if and only if it has no semicolon, no line feed and no `and` in white space |
| Ris.ParseRis | server/scripts/ingest-bibliography.ts:100-123 | the loop over lines builds the records of the line reader |
| RisLines.OneAuthor | server/scripts/ingest-bibliography.ts:100-124 | a file with one record whose one author is named in several words without a comma gives one record with the last word as family name and the words before it as given name |
| RisLines.RecordByRecord | server/scripts/ingest-bibliography.ts:103-108 | for every file: what stands between a line beginning with TY and the next beginning with ER makes one record, kept if it has an author or a non-empty title, and the rest is read as if it stood alone |
| RisLines.Unclosed | server/scripts/ingest-bibliography.ts:103-108 | a record that is not closed is dropped |
| RisLines.OneLineOutside | server/scripts/ingest-bibliography.ts:106-107 | a line outside a record does nothing unless it begins with TY |
| RisLines.RecordLines | server/scripts/ingest-bibliography.ts:106-108 | TY opens an empty record and drops an open one, ER closes it |
| RisLines.PeopleLines | server/scripts/ingest-bibliography.ts:109-110 | AU and A1 add the persons of the text to the authors, ED to the editors |
| RisLines.YearLines | server/scripts/ingest-bibliography.ts:111 | PY and Y1 set the year to the first four characters of the trimmed text |
| RisLines.TitleLines | server/scripts/ingest-bibliography.ts:112 | TI and T1 set the title |
| RisLines.JournalLines | server/scripts/ingest-bibliography.ts:113 | JO, JF and T2 set the journal |
| RisLines.PlaceLines | server/scripts/ingest-bibliography.ts:114-115 | PB sets the publisher and CY the place |
| RisLines.NumberLines | server/scripts/ingest-bibliography.ts:116-117 | VL sets the volume and IS the issue |
| RisLines.PageLines | server/scripts/ingest-bibliography.ts:118 | SP sets the pages |
| RisLines.LinkLines | server/scripts/ingest-bibliography.ts:119-120 | DO sets the DOI and UR the address |
| RisLines.OtherLines | server/scripts/ingest-bibliography.ts:104-121 | a line with any other code changes nothing |
| RisLines.KindIsWritten | PortableOutput.tsx:529 | the first line of an entry is TY with BOOK, CPAPER, ELEC or JOUR |
| RisLines.ValuesAreWritten | PortableOutput.tsx:528-540 | after it come a line for each author and, in this order, one with its own code for each value that is there |
| Ris.ReadEntry | server/scripts/ingest-bibliography.ts:100-123 | reading one written entry appends the record it denotes when that has an author or a title |
| Ris.ExportReadsBack | PortableOutput.tsx:1363-1366 | reading a whole export gives the denoted records in order, for all values without a line feed |
| RisRoundTrip.AuthorsRoundTrip | PortableOutput.tsx:526-541 | for every list of authors, plain texts included: the persons read line up with the authors one by one if and only if every author survives |
| RisRoundTrip.DenotesVerbatim | PortableOutput.tsx:526-541 | for every reference: the record it denotes has its own values, with the book or conference title over the journal, if and only if its authors survive, its texts are trimmed and its year is trimmed and has at most four characters |
| RisRoundTrip.RecordsInLine | server/scripts/ingest-bibliography.ts:100-123 | whatever the text, no record read from it has a line feed in an author or a text |
| RisRoundTrip.ExportRoundTrip | PortableOutput.tsx:1363-1366 | an export of references that survive reads back as one record per reference, in order, with the same values; and where no replaced journal has a line feed, only such an export does |
| RegistryProtocol.StepKeeps | ml-service/app/models/loader.py:99-155 | every lock-protected block keeps the balance of the counter and the least-recently-used order |
| RegistryProtocol.RunKeeps | ml-service/app/models/loader.py:99-155 | so both hold in every interleaving of blocks |
| RegistryProtocol.CounterCovers | ml-service/app/models/loader.py:205-218 | the counter never under-reports and is never negative |
| RegistryProtocol.LostByOverwriting | ml-service/app/models/loader.py:119-123 | bytes are lost if and only if some step so far installed a model over a resident one of non-zero size, or an extractor or a failed load over a resident extractor of non-zero size |
| RegistryProtocol.ExactUnlessOverwritten | ml-service/app/models/loader.py:205-210 | the counter is the resident size if and only if nothing is counted but not installed and no step so far has overwritten an entry |
| RegistryProtocol.ClampsNeverBite | ml-service/app/models/loader.py:358-364 | the clamp at zero never changes the result of the subtraction |
| RegistryProtocol.EvictsOldest | ml-service/app/models/loader.py:128-155 | eviction removes the first model in the dictionary, which no other model precedes in the time stored |
| RegistryProtocol.ListedByUse | ml-service/app/models/loader.py:99-106 | in every run the dictionary lists the models strictly by the last step that installed or requested them, and each carries the clock reading of that step |
| RegistryProtocol.EvictsLeastRecentlyUsed | ml-service/app/models/loader.py:128-155 | so in every run an eviction takes the model whose last installation or request is the earliest |
| RegistryProtocol.TouchKeepsModels | ml-service/app/models/loader.py:99-106 | a request adds and removes no model, changes no size, and refreshes the time of the requested model only |
| RegistryProtocol.TouchKeepsExtractor | ml-service/app/models/loader.py:108-118 | asking for the extractor under its key refreshes its time and changes nothing else, and under another key changes nothing |
| RegistryProtocol.InstallIsFound | ml-service/app/models/loader.py:205-210 | an installed model is found under its name with its size |
| RegistryProtocol.ExtractorSteps | ml-service/app/models/loader.py:108-155 | an installed extractor is there under its key, a failed load and clearing drop it, and eviction takes it only when no model is left |
| RegistryProtocol.LossIsForever | ml-service/app/models/loader.py:205-210 | bytes of overwritten entries stay counted in every later state |
| RegistryProtocol.DoubleLoadLeaks | ml-service/app/models/loader.py:205-210 | two loads of one model leave the counter at twice the resident size |
| ModelRegistry.Registry.TouchModel | ml-service/app/models/loader.py:99-106 | the block of get_model is the protocol's step: found entries move to the end with the new time |
| ModelRegistry.Registry.InstallModel | ml-service/app/models/loader.py:205-210 | the block at the end of a load is the protocol's step |
| ModelRegistry.Registry.TouchExtractor | ml-service/app/models/loader.py:108-118 | the first extractor block is the protocol's step, a hit exactly when the key agrees |
| ModelRegistry.Registry.CountExtractor | ml-service/app/models/loader.py:315-316 | the counting block is the protocol's step |
| ModelRegistry.Registry.InstallExtractor | ml-service/app/models/loader.py:119-123 | the second extractor block is the protocol's step, for a loaded and for a failed artifact |
| ModelRegistry.Registry.UnloadLru | ml-service/app/models/loader.py:128-155 | eviction is the protocol's step and reports failure exactly when there was nothing to evict |
| ModelRegistry.Registry.ClearExtractorCache | ml-service/app/models/loader.py:358-364 | clearing is the protocol's step |
| ModelRegistry.Registry.ReserveMemory | ml-service/app/models/loader.py:215-218 | undisturbed, it evicts the least it can, oldest first and the extractor last, and gives up only with nothing left |
| ModelRegistry.LossForcesEviction | ml-service/app/models/loader.py:215-218 | with lost bytes alone over the limit, the counter is over it after any number of evictions, so that a reservation stops only when nothing is left |
| WorkerPool.StepKeeps | server/scripts/sync-style-gold-reference-pack.ts:127-136 | every turn of a worker keeps: rows handed out once each and in order, no row held twice, each handed-out row in flight, processed or failed |
| WorkerPool.RunKeeps | server/scripts/sync-style-gold-reference-pack.ts:120-141 | so these hold under every schedule |
| WorkerPool.ConcurrencyRespected | server/scripts/sync-style-gold-reference-pack.ts:138-140 | at most max(1, concurrency) rows are in flight |
| WorkerPool.ConcurrencyUsed | server/scripts/sync-style-gold-reference-pack.ts:127-140 | exactly so many are while rows are left, once every worker has started and as long as no row was rejected |
| WorkerPool.StepDecreases | server/scripts/sync-style-gold-reference-pack.ts:127-136 | rows left plus turns left decrease with every turn |
| WorkerPool.RunIsBounded | server/scripts/sync-style-gold-reference-pack.ts:120-141 | so no schedule is longer than the initial measure |
| WorkerPool.SettledIsStuck | server/scripts/sync-style-gold-reference-pack.ts:120-141 | a run can go on exactly while some worker has not returned or been rejected |
| WorkerPool.SettledIsComplete | server/scripts/harvest-style-gold-candidates.ts:724-766 | when no worker has a turn left, every row handed out was processed or failed, and without a failure every row was processed |
| WorkerPool.Pool.Turn | server/scripts/sync-style-gold-reference-pack.ts:127-136 | the code between two awaits is one step of the protocol, for both ways of advancing the cursor |
| WorkerPool.Pool.RunAll | server/scripts/sync-style-gold-reference-pack.ts:120-141 | under any scheduler the pool settles, and without a failure every row was processed |
| ServiceMetrics.AddToBuckets | ml-service/app/service_metrics.py:86-89 | the bucket loop adds one to exactly the buckets whose bound the value does not exceed |
| ServiceMetrics.Metrics.ObserveRequest | ml-service/app/service_metrics.py:75-96 | the counters stay those of the log of observations, extended by this one |
| ServiceMetrics.RenderBuckets | ml-service/app/service_metrics.py:144-150 | each rendered line is the number of observations at or below its bound, also where the counter is missing and the running value is used |
| ServiceMetrics.Metrics.RenderLatency | ml-service/app/service_metrics.py:143-156 | the eight lines are the numbers of the endpoint's observations with a latency of at most 0.01, 0.025, 0.05, 0.1, 0.25, 0.5 and 1 second and of all of them, and the count is that of all |
| ServiceMetrics.Metrics.RenderBatch | ml-service/app/service_metrics.py:164-177 | the eight lines are the numbers of the endpoint's observations with a batch size of at most 1, 4, 8, 16, 32, 64 and 128 and of all of them, and the count is that of all |
| ServiceMetrics.HistogramIsCumulative | ml-service/app/service_metrics.py:143-177 | lines never decrease and the +Inf line is the count |
| ServiceMetrics.StatusesAddUp | ml-service/app/service_metrics.py:76-85 | the count is the endpoint's requests added up over their statuses |
| ServiceMetrics.StatusSize | ml-service/app/service_metrics.py:76 | a request counter is the number of observations with its endpoint and status |
| StructuralCount.MarkerHasLead | frontend/shared/liveReferenceDetection.ts:128-157 | a line the marker counter counts has a valid numeric lead: both patterns cut off the same marker |
| StructuralCount.StartsAreContent | frontend/shared/liveReferenceDetection.ts:374-426 | starts are content lines, and there is one as soon as there is content |
| StructuralCount.MarkersStart | frontend/shared/liveReferenceDetection.ts:331-354 | every counted marker line starts a citation, so there are no more markers than starts |
| StructuralCount.MarkersAreRedundant | frontend/shared/liveReferenceDetection.ts:428-438 | the marker count never exceeds the structural count, which recovery never makes zero |
| StructuralCount.CountStructuralCandidates | frontend/shared/liveReferenceDetection.ts:374-426 | the scan counts the starting content lines, or one for URI tails alone, or none; recovery applies when that is at most one |
| StructuralCount.CountLineBasedReferenceMarkers | frontend/shared/liveReferenceDetection.ts:136-157 | the loop counts the content lines that a bracketed or a dotted marker opens |
| StructuralCount.CountEngineLikeInputReferences | frontend/shared/liveReferenceDetection.ts:428-438 | without explicit entries the three-way maximum is the structural count |
| MarkerLaws.WhatStarts | frontend/shared/liveReferenceDetection.ts:331-354 | a content line starts a citation if and only if it has a numeric marker before a substantial text, or no content line comes before it, or it stands right behind an ignored line and opens a citation, or it scores as an opener while the nearest line before it that is not ignored signals no continuation |
| MarkerLaws.WhatIsCounted | frontend/shared/liveReferenceDetection.ts:374-426 | the structural count is the number of such lines; without content it is 1 if some line is a URI tail and else 0 |
| MarkerLaws.WhatRecoveryCounts | frontend/shared/liveReferenceDetection.ts:356-372 | recovery counts the stretches between boundaries that are not blank, and at least 1 |
| MarkerLaws.MarkersAreRead | frontend/shared/liveReferenceDetection.ts:128-133 | `[n]`, `n.` and `n)` before white space are markers, which end with that white space |
| MarkerLaws.MarkersAreForms | frontend/shared/liveReferenceDetection.ts:128-133 | and nothing else is |
| MarkerLaws.BracketLines | frontend/shared/liveReferenceDetection.ts:145-148 | a line `[n] text` counts by its text, if n has at most four digits and the text is not empty and on one line |
| MarkerLaws.DotLines | frontend/shared/liveReferenceDetection.ts:150-153 | so does a line `n. text` or `n) text`, unless n is a year of the 1900s or 2000s |
| LookupWords.NormalizeIsWords | ml-service/app/main.py:979-980 | lower-casing, the two substitutions and the strip leave the alphanumeric words, one space apart |
| LookupWords.WhatWordsAre | ml-service/app/main.py:979-980 | a text of the digits and the letters a to z only is one word, and any other character separates words |
| LookupWords.WhatSpacedIs | ml-service/app/main.py:979-980 | words are joined with one space |
| LookupWords.WhatLoweredIs | ml-service/app/main.py:979-980 | a text is lowered character by character, each as the case mapping says |
| LookupWords.CollapseReplaced | ml-service/app/main.py:979-980 | the second substitution changes nothing after the first |
| LookupWords.SameLookupIffSameWords | ml-service/app/main.py:979-980 | two texts normalise alike exactly when they have the same words |
| LookupWords.LookupGrows | ml-service/app/main.py:936-944 | the normalised form of joined tokens never gets shorter when tokens are added |
| LookupWords.JoinedLookup | ml-service/app/main.py:940-942 | joined tokens equal the needle exactly when the words of the tokens are those of the span |
| TokenWindow.TokenizeWithOffsets | ml-service/app/main.py:822-828 | the tokens are exactly the maximal runs of non-blank characters, each the slice at its offsets |
| TokenWindow.TokenWindowFromOffsets | ml-service/app/main.py:961-976 | the window holds exactly the tokens that touch the range of characters, and there is none exactly when no token does |
| TokenWindow.TokensCover | ml-service/app/main.py:822-828 | every non-blank character is in a token |
| TokenWindow.WindowWords | ml-service/app/main.py:865 | the text of a window has the words of its tokens |
| FieldSpans.OccurrencesCover | ml-service/app/main.py:946-950 | every place where the literal matches starts inside a listed occurrence |
| FieldSpans.PruneIsSafe | ml-service/app/main.py:943-944 | once the candidate is too long, no longer window from the same start can match |
| FieldSpans.FindSpelling | ml-service/app/main.py:933-944 | the pruned double loop returns the first free window, by start and then by end, whose words are the span's, and nothing exactly when there is none |
| FieldSpans.FindTokenWindow | ml-service/app/main.py:921-958 | with the literal fallback it returns what the unpruned search does: that window, or the tokens of the first acceptable occurrence, or nothing |
| FieldSpans.FindsOne | ml-service/app/main.py:921-958 | the unpruned search has one result |
| FieldSpans.FoundIsFree | ml-service/app/main.py:921-958 | a window found is non-empty and free of occupied tokens unless overlap is allowed |
| FieldSpans.FoundSpells | ml-service/app/main.py:933-944 | when some free window spells the value, the found window's text normalises to what the value does |
| FieldSpans.OccurrenceHasTokens | ml-service/app/main.py:950-953 | every literal occurrence touches a token, so the skip for a missing window is never taken |
| FieldSpans.BuildSpansFromFields | ml-service/app/main.py:831-871 | field by field, the spans are those found with the tokens of all earlier spans occupied, with the text, confidence and validity of the field |
| FieldSpans.SpansKeepApart | ml-service/app/main.py:831-871 | spans lie among the tokens, and one for any field but `volume` and `issue` shares no token with an earlier span |
| FieldSpans.OthersTakeFree | ml-service/app/main.py:846-853 | whatever is occupied, any other field is given free tokens only |
| FieldSpans.VolumesMayOverlap | ml-service/app/main.py:846-853 | a `volume` or `issue` that no window of free tokens spells, but that occurs in the text, gets the tokens of its first occurrence, occupied or not |
| FieldSpans.SpansAreOne | ml-service/app/main.py:831-871 | fields and tokens determine the spans |

## Left out

- Floating-point rounding: similarity weights are scaled by ten, ratios are exact reals, and metrics are not rounded to four digits.
- The fuzzy string ratio, the quality score, the near-equivalence test and `calculateCitationSimilarity` are arbitrary functions; the election only uses that they are functions.
- Case folding is that of ASCII letters in the diff and in `inputStyle`; the token search takes the case mapping as a parameter whose only law is that blanks have no case.
- Regular expressions that only classify text (artifacts, URI tails, substantial bodies, author leads, opener scores, explicit entries, secondary boundaries) are parameters of the live count; so are the value and detokenising expressions of the training reader.
- ClusterLoop.ScanMembers: with a threshold of zero or less no member needs to reach it, as in the source, where the running best starts at zero.
- Clustering.RunKeeps: when two references share an id, the metadata of the last one is used for both, as in the source.
- ClusterLoop.ElectWinners: winner reasons, diagnostics, cluster warnings and the best confidence score, which no branch reads.
- ClusterLoop.ClusterCitations: the same parts of the returned clusters.
- BioDecoders.ExtractBioEntities: tags with prefixes other than B and I are decoded as the source does, but the theorems are for O, B and I; tags come split at their first dash.
- BioAlignment.AlignRow: label ids, special tokens and truncation to the maximum length are not modelled.
- BioMetrics.ComputeEntityExactMetrics: the per-label metrics, which repeat the computation for each label, and the rounding to four digits.
- entity_charspan_metrics, field_row_metrics and the aggregates of the evaluation: counting over sets, without a further invariant.
- Lone surrogates in JSON strings, and how numbers print: a number is its printed text.
- The reference type, which is written but never read back; editors, publisher, place and DOI are read but never written.
- RisRoundTrip.ExportRoundTrip: where a journal has line feeds and a book or conference title replaces it, whether the export reads back depends on the lines the journal writes; that such an export does not read back is not claimed.
- BibTeX writing and parsing, and the HTML citation fragments.
- ServiceMetrics.Metrics.ObserveRequest: the latency and batch sums, and the error, fallback, CPU and memory counters, which are plain additions.
- ServiceMetrics.Metrics.RenderLatency: the sum line and the text of labels.
- ServiceMetrics.Metrics.RenderBatch: the sum line and the text of labels.
- Loading, version pinning and health of models; label escaping, and the order in which endpoints are rendered.
- ModelRegistry.Registry.ReserveMemory: its loop condition reads the counter without the lock; the contract is for a caller no other thread disturbs, while the protocol's invariants hold under any interleaving.
- WorkerPool.SettledIsComplete: a rejected row ends its worker; that the pool's promise then rejects early, while other workers go on, is not modelled.
- FieldSpans.BuildSpansFromFields: a field's text is given, empty when there is none.
- Network, database, file and HTTP code, React components and hooks, Unicode normalisation, style and type classifiers.
