# Verified model of the disir configuration engine

disir keeps configuration in trees. A *mold* describes sections and keyvals, with
versioned defaults and versioned restrictions. A *config* is made from a mold at one
version: it is generated, validated, addressed by names such as `section@2.keyval`,
edited and brought to newer versions. This project models that engine (`lib/`), the
containers under it (a self-compacting collection, a two-index element store, a doubly
linked list), the JSON reader and writer the library ships (`3rdparty/jsoncpp`) and the
edit distance of the command line tool (`cli/cli.cc`), and proves what they promise one
another: generator and validator, printer and parser, setter and getter, upgrade and
three-way merge.

`dafny verify dfyconfig.toml` checks the whole project.

## How the model is laid out

| module | content |
|---|---|
| `Options`, `Status`, `Numbers` | shared datatypes, result codes, decimal numbers and `strtol` |
| `EditDistance` | the single-column edit distance loop |
| `LinkedList`, `Collection`, `ElementStorage` | the mutable containers, as classes |
| `JsonNumber`, `JsonString`, `JsonValue`, `JsonGrammar`, `JsonWriter`, `JsonReader` | JSON: tokens, values, what the reader makes of a text, and the two classes |
| `JsonSyntax`, `JsonAccepts`, `JsonParses`, `JsonRoundTrip`, `JsonReadBack` | syntax trees with their writing and meaning, that the reader accepts exactly these, and the round trip in both directions |
| `Versions`, `Values`, `Defaults`, `Restrictions` | semantic versions, values, active defaults, value and entry restrictions |
| `Configs`, `Validation` | molds and configs as trees and the verdict on them; validation on live contexts, with flags |
| `Construction`, `Generate`, `LeastConfig` | naming and finalizing new contexts; generating a config; that it is valid, exact and least |
| `Query`, `Resolution`, `RootNames` | the in-place tokenizer, finding a context by name, writing the name of a context |
| `SetKeyval`, `Setter`, `SetSafety`, `SetSuccess` | setting a keyval by name: what the calls compute, the calls themselves, that they are all or nothing, and exactly when they succeed |
| `Update`, `UpdateOutcome`, `UpdateRuns` | upgrading a config, its conflicts and resolutions; what the upgraded config and the new config hold and when they are valid; whole runs of calls |
| `UpdateDriver`, `UpdateFates`, `UpdateEndings`, `UpdateExamples` | the update that answers its own conflicts; what becomes of a conflict and how the whole update ends, both told beforehand from the config and its mold; configs on which it ends badly |
| `Import` | which entries of an archive get imported |

A context is a value (`Configs.Node`) where only its shape matters and an object
(`Collection.Context`, `Validation.Context`) where the code writes to it. A context of a
config is identified by the positions that lead to it from the root. A string is a
sequence of bytes.

## What the code does that its documentation does not say

Each of these is a lemma or a clause below.

- `lib/include/restriction.h:78-82` promises a minimum of 0 and at most one instance by
  default. The code demands an instance unless a minimum entry of 0 is in use
  (`Restrictions.DefaultMinimum`), and then, without a maximum, it allows any number
  (`Restrictions.DefaultMaximum`).
- The entry bound in use is not always the newest applicable one once majors differ
  (`Restrictions.ClosestIsNewestIff`, `Restrictions.OlderMajorPreferred`).
- Values that differ by a multiple of 2^32, or floats less than one apart, compare as equal
  (`Values.SameValueIff`).
- Coalescing a collection can skip unread contexts (`Collection.UnreadKept`,
  `Collection.UnreadLost`).
- Collecting the keyvals of a config for an upgrade ends with the first section
  (`Update.CollectedIff`, `Update.BehindSectionNotCollected`).
- `include/disir/disir.h:299-301` says the config object is updated. What is handed out after
  conflicts is the config generated at the new version with the first root keyvals of the
  resolved leaf names exchanged (`UpdateOutcome.ReplayedRoots`). At such a root keyval it holds
  the value of the last conflict of that leaf name, even if that was about a nested keyval
  (`UpdateEndings.LastSettled`, `UpdateExamples.NestedOverwritesRoot`); any other value, at any
  depth, is lost unless it equals the new default and lies within the minimum of instances
  (`UpdateOutcome.KeptReadsIff`, `UpdateEndings.ReplacedReadsIff`,
  `UpdateExamples.KeptValueNotReturned`).
- Without conflicts the config is updated in place, and is valid at its new version only if
  the counts and values it has fit there (`UpdateOutcome.InPlaceIsValidIff`,
  `UpdateExamples.UpdatedInPlaceIsInvalid`).
- `dx_update_config_with_changes` does not always return. Every conflict has a fate that can be
  told from the mold and the keyval alone (`UpdateFates.FateOf`, `UpdateFates.FateIs`), and the
  first one that is not settled decides: the call never returns exactly if its leaf name leads
  to a root keyval that takes neither of the two offered values while values may be discarded,
  or to one of an enum, which ends the program (`UpdateEndings.ReturnsIff`,
  `UpdateExamples.StuckForever`).
- The texts of a conflict are held in buffers of 512 bytes: a longer string is not offered as
  it is (`Update.OfferedIsParsedIff`, `Update.LongStringCut`).
- An update marks an archive entry for import without validating the updated config again, so
  that a config which is not valid can be imported (`Import.MarkedIsValidIff`,
  `Import.UpdateMarksInvalid`).

## Model

| member | source | states |
|---|---|---|
| `EditDistance.LevenshteinDistance` | cli/cli.cc:31-58 | For every pair of strings that are not both empty, the in-place column loop returns the least cost of any edit script from one to the other. |
| `EditDistance.DistanceIsLeastCost` | cli/cli.cc:31-58 | The distance is reached by some script of insertions, deletions and substitutions, and no script is cheaper. |
| `EditDistance.DistanceIsLowerBound` | cli/cli.cc:31-58 | No script that turns one string into the other costs less than the distance. |
| `EditDistance.CheapestScript` | cli/cli.cc:31-58 | A script of exactly that cost exists and does turn one string into the other. |
| `LinkedList.List.RPush` | 3rdparty/void-list/list.c:75-101 | The value joins the list at the tail; links, length and order of all others are kept; a null value is refused. |
| `LinkedList.List.LPush` | 3rdparty/void-list/list.c:145-171 | The value joins at the head; everything else is kept. |
| `LinkedList.List.RPop` | 3rdparty/void-list/list.c:104-121 | Takes the last value, or answers null on an empty list. |
| `LinkedList.List.LPop` | 3rdparty/void-list/list.c:124-142 | Takes the first value, or answers null on an empty list. |
| `LinkedList.List.Remove` | 3rdparty/void-list/list.c:230-262 | Removes exactly the first occurrence of the value; without one the list is unchanged and the call fails. |
| `LinkedList.RemoveFirstAt` | 3rdparty/void-list/list.c:230-262 | What removing the first occurrence means, position by position. |
| `LinkedList.Walk` | 3rdparty/void-list/list_iterator.c:45-60 | Walking forward gives the contents, walking backward their reverse. |
| `LinkedList.ReversedAt` | 3rdparty/void-list/list_iterator.c:45-60 | The reverse, position by position. |
| `Collection.DisirCollection.Coalesce` | lib/collection.c:124-194 | The live contexts stand in front in their old order, every destroyed one was released once, and the cursor moved back by the crossings. |
| `Collection.DisirCollection.Compact` | lib/collection.c:137-186 | The compacting loop never looks into an emptied slot and computes the moved cursor. |
| `Collection.DisirCollection.Next` | lib/collection.c:62-105 | Coalesces, then hands out the context at the moved cursor with one more reference, or nothing at the end. |
| `Collection.DisirCollection.Finished` | lib/collection.c:219-249 | Every context still held is released. |
| `Collection.MovedByCrossings` | lib/collection.c:160-186 | The crossings counted slot by slot add up to the smaller of the destroyed before the cursor and the live from it on. |
| `Collection.UnreadKept` | lib/collection.c:124-194 | The unread contexts after coalescing are the live unread ones exactly when no more were destroyed before the cursor than live from it on, or none is left unread. |
| `Collection.UnreadLost` | lib/collection.c:124-194 | With two of three contexts read and destroyed, the last one, alive and unread, is never handed out. |
| `ElementStorage.Storage.Add` | lib/element_storage.c:169-236 | Adds to both indexes and takes one reference, unless the context is stored under that name already. |
| `ElementStorage.Storage.Remove` | lib/element_storage.c:239-252 | Removes from both indexes and drops the one reference it held. |
| `ElementStorage.Storage.FindElements` | lib/context.c:1384-1430 | The contexts of that name in insertion order, or that there are none. |
| `ElementStorage.Storage.FindElement` | lib/context.c:1310-1380 | The context of that name with that index, with one more reference. |
| `ElementStorage.Storage.GetElements` | lib/element_storage.c:304-345 | All contexts in insertion order. |
| `ElementStorage.IndexedRemove` | lib/element_storage.c:239-252 | Removing keeps each name's list equal to the whole list filtered by the name. |
| `ElementStorage.StoredOnceWithOneReference` | lib/element_storage.c:169-252 | After any run of adds and removes a context is stored at most once, exactly if it was added last, and the storage holds exactly one reference to it then. |
| `ElementStorage.Perform` | lib/element_storage.c:169-252 | A run of adds and removes on an empty storage leaves exactly the contexts added last, and has taken one reference on each of them and none on the others. |
| `ElementStorage.StepKeepsOrder` | lib/element_storage.c:169-252 | No operation changes the order of two contexts that stay. |
| `JsonNumber.UintToString` | 3rdparty/jsoncpp/jsoncpp.cpp:149-155 | Writes the shortest decimal text of a number backwards into the buffer, with its terminator, and nothing else. |
| `JsonNumber.ValueToString` | 3rdparty/jsoncpp/jsoncpp.cpp:4364-4378 | Every 64-bit integer prints within the 25 bytes of the buffer. |
| `JsonNumber.DecodeNumber` | 3rdparty/jsoncpp/jsoncpp.cpp:753-793 | A digit string stays an exact integer if and only if it fits; no step of the accumulation exceeds the limit. |
| `JsonNumber.OverLimit` | 3rdparty/jsoncpp/jsoncpp.cpp:773-783 | When the test made before a digit is added stops the accumulation, the whole number is above the limit. |
| `JsonNumber.IntegerRoundTrip` | 3rdparty/jsoncpp/jsoncpp.cpp:753-793 | The printed text of every signed 64-bit integer decodes to that integer. |
| `JsonString.ValueToQuotedString` | 3rdparty/jsoncpp/jsoncpp.cpp:4513-4574 | Every byte is escaped as the format demands, on the quick path and on the slow one. |
| `JsonString.EscapeIs` | 3rdparty/jsoncpp/jsoncpp.cpp:4526-4566 | Byte by byte, what is escaped and how. |
| `JsonString.DecodeEscapeAll` | 3rdparty/jsoncpp/jsoncpp.cpp:828-880 | Escaping and decoding give back every byte string. |
| `JsonString.ScanQuoted` | 3rdparty/jsoncpp/jsoncpp.cpp:637-647 | The scanner stops exactly at the quote that closes an escaped string. |
| `JsonString.Utf8RoundTrip` | 3rdparty/jsoncpp/jsoncpp.cpp:104-130 | Every code point is written as the UTF-8 sequence that encodes it (section 3 of RFC 3629). |
| `JsonString.PairDecodes` | 3rdparty/jsoncpp/jsoncpp.cpp:881-908 | Every surrogate pair decodes to its code point (section 7 of RFC 8259). |
| `JsonString.CodePointHasPair` | 3rdparty/jsoncpp/jsoncpp.cpp:881-908 | Every code point above the basic plane has such a pair. |
| `JsonValue.PutKeepsOrder` | 3rdparty/jsoncpp/jsoncpp.cpp:3619-3637 | Setting a member keeps the keys strictly ascending. |
| `JsonValue.PutReplaces` | 3rdparty/jsoncpp/jsoncpp.cpp:3619-3637 | It replaces exactly the member of that key, or adds it. |
| `JsonValue.KeyLessIsTotal` | 3rdparty/jsoncpp/jsoncpp.cpp:2864-2876 | Two different keys are always ordered. |
| `JsonValue.KeyLessIsTransitive` | 3rdparty/jsoncpp/jsoncpp.cpp:2864-2876 | The key order is transitive. |
| `JsonValue.KeyLessIff` | 3rdparty/jsoncpp/jsoncpp.cpp:2864-2876 | A key is less than another exactly if it is a proper prefix, or has the smaller byte where they first differ. |
| `JsonValue.NormIsSimilar` | 3rdparty/jsoncpp/jsoncpp.cpp:753-793 | Reading changes at most the signed or unsigned tag of an integer, never its value. |
| `JsonWriter.FastWriter.Write` | 3rdparty/jsoncpp/jsoncpp.cpp:4593-4653 | The writer produces the text of the value and a newline. |
| `JsonWriter.FastWriter.WriteObject` | 3rdparty/jsoncpp/jsoncpp.cpp:4634-4650 | The loop over members appends exactly the text of the object. |
| `JsonReader.Reader.ReadOne` | 3rdparty/jsoncpp/jsoncpp.cpp:350-432 | The reader accepts exactly what the grammar accepts, with the same value, the same rest and the depth restored. |
| `JsonReader.Reader.ReadObject` | 3rdparty/jsoncpp/jsoncpp.cpp:649-703 | The same for objects, including the closing brace accepted behind a comma after an empty key. |
| `JsonReader.Reader.ReadArrayItems` | 3rdparty/jsoncpp/jsoncpp.cpp:705-741 | The same for arrays. |
| `JsonReader.Reader.ReadToken` | 3rdparty/jsoncpp/jsoncpp.cpp:444-513 | The token at the cursor, and the cursor behind it, for comments as errors. |
| `JsonReader.DecodeString` | 3rdparty/jsoncpp/jsoncpp.cpp:828-880 | The decoding loop computes the decoded string, and fails exactly on a malformed escape. |
| `JsonReader.DecodeUnicodeCodePoint` | 3rdparty/jsoncpp/jsoncpp.cpp:881-908 | One code point from one escape or from a pair. |
| `JsonReader.ParseDocument` | 3rdparty/jsoncpp/jsoncpp.cpp:308-348 | Parsing a text gives what the grammar gives for it. |
| `JsonRoundTrip.DocumentRoundTrip` | 3rdparty/jsoncpp/jsoncpp.cpp:350-741 | Reading back the written text of any storable value gives the value, up to integer tags, exactly when it is within the nesting limit; otherwise the reader gives up. |
| `JsonRoundTrip.SpacedRoundTrip` | 3rdparty/jsoncpp/jsoncpp.cpp:350-741 | The same for the value written with any spaces, tabs and line ends between its tokens. |
| `JsonRoundTrip.ReadText` | 3rdparty/jsoncpp/jsoncpp.cpp:350-741 | Wherever a printed value stands in a document, it reads back as the value, or the reader gives up if it is nested too deep there. |
| `JsonParses.AcceptedIff` | 3rdparty/jsoncpp/jsoncpp.cpp:308-741 | A document is read as a value exactly if it is the writing of a syntax tree with that meaning within the nesting limit: the tokens, brackets, commas and colons where they belong, any space before a token, a dangling comma only behind an empty key, and any text behind that does not prolong a number. |
| `JsonParses.TreeOf` | 3rdparty/jsoncpp/jsoncpp.cpp:350-741 | Every text a value is read from, at any depth, is the writing of such a tree. |
| `JsonAccepts.TreeRead` | 3rdparty/jsoncpp/jsoncpp.cpp:350-741 | Every such tree within the nesting limit is read as its meaning. |
| `JsonAccepts.TreeTooDeep` | 3rdparty/jsoncpp/jsoncpp.cpp:350-360 | The reader gives up on a tree nested too deep wherever it stands in a document. |
| `JsonAccepts.FieldsRead` | 3rdparty/jsoncpp/jsoncpp.cpp:649-703 | The fields of an object are read one after the other onto any members read before; a later key replaces an equal one. |
| `JsonAccepts.SpacesSkipped` | 3rdparty/jsoncpp/jsoncpp.cpp:515-523 | Spaces, tabs and line ends before a token or a document make no difference. |
| `JsonReadBack.ReadValueIs` | 3rdparty/jsoncpp/jsoncpp.cpp:350-741 | Whatever text is accepted, the value read has its keys in order at every level, integers with the tag of their size, and a nesting within the limit. |
| `JsonReadBack.ReadBack` | 3rdparty/jsoncpp/jsoncpp.cpp:350-741 | Every accepted document without doubles gives a value that is written and read back exactly. |
| `Numbers.StrtolDecimal` | lib/query.c:92-107 | A printed index is read back whole. |
| `Numbers.StrtolOf` | lib/query.c:70-108 | What strtol makes of any text: spaces, a sign, and the digits that follow, whose value is kept within 64 bits; nothing without a digit. |
| `Numbers.DecimalIsShortest` | 3rdparty/jsoncpp/jsoncpp.cpp:149-155 | A printed number starts with a zero only if it is zero. |
| `Versions.CompareAgrees` | lib/util.c:87-103 | The comparison has the sign of the version order exactly when the deciding difference is below 2^31. |
| `Values.SameValueIff` | lib/util.c:227-254 | Exactly which values compare as equal. |
| `Values.SameValueExact` | lib/util.c:227-254 | Without floats, and on integers of limited size, only identical values do. |
| `Values.SameValueFails` | lib/util.c:227-254 | Two different integers and two different floats that compare as equal. |
| `Defaults.KeyvalDefaults.Finalize` | lib/context_default.c:87-113 | The default is queued before the first newer one; it is invalid exactly if its version was there already. |
| `Defaults.KeyvalDefaults.GetActive` | lib/context_default.c:612-642 | The scan finds the entry before the first newer one, the head if that is the first, the tail if there is none. |
| `Defaults.EnqueueAllSorted` | lib/include/mqueue.h:382-405 | Any order of insertion gives a sorted queue of the same defaults. |
| `Defaults.ActiveOfAnyOrder` | lib/context_default.c:612-642 | The active default is the newest one not above the version, or the oldest if there is none, whatever the order of insertion. |
| `Defaults.ActiveIsMonotone` | lib/context_default.c:612-642 | A later version never activates an older default. |
| `Defaults.ActiveUnchangedIff` | lib/context_default.c:612-642 | The active default is the same at two versions exactly when none but the oldest was introduced in between. |
| `Restrictions.ExclusiveValueCheck` | lib/context_restriction.c:1021-1256 | The counting loop accepts a value exactly when a restriction in force admits it, or none is in force and the value is not an enum. |
| `Restrictions.AllowedIff` | lib/context_restriction.c:1021-1256 | Exactly which values are allowed, read off the ranges, numbers and enums whose versions span the given one. |
| `Configs.ValueOkIs` | lib/context_restriction.c:1021-1256 | Strings and booleans are never restricted; all other values are checked. |
| `Restrictions.EntriesValue` | lib/context_restriction.c:1259-1430 | The loop over the queue computes the bounds from the closest entries, the defaulting rules and the element's lifetime. |
| `Restrictions.AcceptableCounts` | lib/context_restriction.c:1378-1396 | Exactly which counts are acceptable within the lifetime: from the minimum in use, or one, up to the maximum in use or a larger minimum; a maximum of zero is no limit, and without a maximum entry the minimum is the maximum, unless it is zero. |
| `Restrictions.MinimumIsAcceptable` | lib/context_restriction.c:1378-1416 | Exactly the minimum number of instances always meets the bounds. |
| `Restrictions.OutsideLifetime` | lib/context_restriction.c:1398-1416 | The bounds are (0, -1), and only zero instances are acceptable, exactly before the version that introduced the element and from the one on that deprecates it. |
| `Restrictions.DefaultMinimum` | lib/context_restriction.c:1378-1416 | Within the lifetime at least one instance is demanded exactly unless the closest minimum entry says zero; without a minimum entry the minimum is one. |
| `Restrictions.DefaultMaximum` | lib/include/restriction.h:78-82 | Without a maximum entry exactly as many instances are acceptable as the closest minimum entry says, exactly one if there is none, and any number if it says zero; so at most one exactly if there is none or it says one. |
| `Restrictions.ClosestIsNewestIff` | lib/context_restriction.c:1355-1376 | Exactly when the entry in use is the newest one introduced up to the version. |
| `Restrictions.OneMajorUsesNewest` | lib/context_restriction.c:1355-1376 | Within one major version it always is. |
| `Restrictions.OlderMajorPreferred` | lib/context_restriction.c:1355-1376 | At 2.5 a maximum from 1.0 is used instead of the one from 2.0. |
| `Restrictions.ClosestIsGreatest` | lib/context_restriction.c:1355-1376 | The entry in use has the greatest comparison with the version, and is the first such. |
| `Configs.VerdictIsValid` | lib/validate.c:585-859 | On a finalized context validating returns OK exactly when the context is valid, whatever its parent. |
| `Configs.ConfigVerdict` | lib/validate.c:599-634 | The same for a whole config. |
| `Configs.ConfigFailures` | lib/validate.c:585-859 | What validating a config returns: wrong numbers at its root come before anything invalid below. |
| `Configs.VerdictIs` | lib/validate.c:585-859 | What is wrong with a finalized context, in the order in which it is found. |
| `Configs.FlaggedIff` | lib/validate.c:796-848 | In a finalized parent exactly the invalid contexts are flagged; under construction a section is not flagged for what is wrong below it. |
| `Configs.AbsentIff` | lib/context_restriction.c:1398-1416 | No instance is acceptable exactly before a section was introduced, or the oldest default of a keyval was, and from the deprecation on. |
| `Configs.LegalNameIs` | lib/validate.c:533-580 | Names consist of lower-case letters, digits and underscores. |
| `Validation.ValidateInclusive` | lib/validate.c:31-165 | The loop returns OK exactly when every mold element has an acceptable number of instances. |
| `Validation.Validate` | lib/validate.c:773-859 | Returns the verdict on the tree and leaves flagged, here and below, exactly the contexts it finds invalid, whatever was flagged before. |
| `Validation.ValidateChildren` | lib/validate.c:288-364 | Every child is validated, also after a failure. |
| `Validation.Root.Validate` | lib/validate.c:585-859 | Validating a config returns OK exactly when nothing in it is left flagged. |
| `Validation.Root.InvalidElements` | lib/validate.c:862-931 | Lists every flagged context exactly once, parents before their children, and fails exactly if there is one. |
| `Validation.InvalidElements` | lib/validate.c:862-931 | The recursion on a section appends its flagged contexts in preorder. |
| `Validation.FlaggedIffFailed` | lib/validate.c:773-859 | The flags of a tree are empty exactly when its verdict is OK. |
| `Validation.InvalidElementsComplete` | lib/validate.c:862-931 | The list below a section is complete, without repetition, parents first. |
| `Construction.Parent.SetName` | lib/context.c:504-588 | Which status naming a new context returns, when it is linked to the mold, and when its name is stored: also, flagged, when the mold does not have it. |
| `Construction.Parent.Finalize` | lib/context.c:319-424 | The context is stored if it is valid, and also if it is not while the parent is under construction. |
| `Construction.FinalizingIsValid` | lib/context_section.c:78-142 | Under construction, finalizing returns OK exactly for contexts that are valid from then on. |
| `Construction.NamingIs` | lib/context.c:504-588 | Exactly when naming a context is refused, and with what. |
| `Construction.StoredInFinal` | lib/context.c:319-424 | A finalized parent takes only valid contexts, and sections of which only the elements are invalid. |
| `Generate.GenerateStep` | lib/generate.c:25-129 | The nested loops and the recursion compute the generated contexts, and stop at the first failure. |
| `Generate.GenerateOne` | lib/generate.c:66-117 | One instance: named, given the active default or its own generated elements, finalized. |
| `Generate.GenerateConfig` | lib/generate.c:131-211 | A version above the mold's is refused; otherwise the status is OK exactly when the generated config is valid. |
| `Generate.GenerationPlaces` | lib/generate.c:25-129 | Everything generated is finalized, linked to the mold and of the right kind, also after a failure. |
| `Generate.CopiedIs` | lib/util.c:257-285 | Values are copied onto their own type, and strings and enums onto one another. |
| `LeastConfig.GeneratedIsValidIff` | lib/generate.c:131-211 | For every well-formed mold the generated config is valid at every level exactly when every default it instantiates is allowed; then it is the least config. |
| `LeastConfig.AllLeast` | lib/generate.c:25-129 | Sound elements get exactly their minimum of instances; otherwise generating fails and leaves an invalid context or a missing one. |
| `LeastConfig.ValidCovers` | lib/generate.c:64-118 | No valid config at the version has fewer instances of any element in any section. |
| `LeastConfig.LeastIsSmallest` | lib/generate.c:25-129 | No valid config at the version has fewer contexts in all. |
| `LeastConfig.NoValidConfigIsSmaller` | lib/generate.c:131-211 | Both at once, for the generated config itself: every valid config of the mold at that version has at least as many instances of each element and at least as many contexts. |
| `LeastConfig.LeastHasMinimum` | lib/generate.c:64-118 | The least config has exactly the minimum of each element. |
| `Query.ResolveName` | lib/query.c:20-115 | Overwriting separators in the buffer takes one key off the query: name, index and the rest as parsed, an error exactly on a malformed key, and the resolved prefix never longer than the query. |
| `Query.ResolveIndex` | lib/query.c:70-108 | The part behind an index indicator. |
| `Query.ParseOf` | lib/query.c:20-115 | Every query is a name, an index behind an at sign and keys behind a dot; it is malformed exactly if the name is empty although something follows, or the index is not a whole number. |
| `Resolution.ResolveToContext` | lib/query.c:368-413 | Finds the context the query leads to, or fails with the status of the first key that leads nowhere. |
| `Resolution.FindElement` | lib/context.c:1309-1380 | The child of that name and index; a keyval has no elements. |
| `Resolution.ResolveContext` | lib/query.c:534-575 | A query that fits the buffer is resolved; what was resolved never outgrows its buffer. |
| `Resolution.NameResolves` | lib/context.c:655-788 | Resolving the name of a context finds that very context. |
| `Resolution.NameAnswers` | lib/query.c:557-572 | Asked as a query it does so exactly when the name is shorter than 2048 bytes. |
| `Resolution.ResolveMisses` | lib/query.c:368-413 | A malformed key is an invalid argument, and a key that leads nowhere does not exist. |
| `Resolution.ResolveGoesOn` | lib/query.c:368-413 | A key that leads to a context finds it if it is the last one, and goes on inside it otherwise, which a keyval does not allow. |
| `Resolution.FirstsArePlain` | lib/context.c:756-778 | The name of a context that is the first of its name at every level has no index. |
| `RootNames.ResolveRootName` | lib/context.c:655-788 | The walk to the root and the writing loop produce the name, within the buffer, for depths up to 20 and indexes below 10^8. |
| `RootNames.WriteLevel` | lib/context.c:756-778 | Each key with its index and separator fits the ten characters set aside for it, with the terminator. |
| `Setter.AssignValue` | lib/context_value.c:394-853 | A finalized keyval takes a value of its type that is allowed; otherwise it is unchanged. |
| `Setter.CreateLeaf` | lib/disir_config_query.c:153-271 | Making a keyval: every check in order, and a context that cannot be finalized is gone again. |
| `Setter.EnsureAndSet` | lib/query.c:119-365 | The walk over the keys that makes missing sections, then the leaf. |
| `Setter.EnsureInNew` | lib/query.c:148-312 | A new section: the first stays under construction until the leaf is there, later ones are finalized before they are entered. |
| `Setter.LiveConfig.SetKeyval` | lib/disir_config_query.c:274-388 | Setting by name on a live config gives the computed status and contexts. |
| `Setter.LiveConfig.GetKeyval` | lib/disir_config_query.c:93-150 | Reading by name. |
| `SetSafety.SetIsAllOrNothing` | lib/disir_config_query.c:274-388 | On a valid config a failure changes nothing; after a success the config is valid and the same name reads the value back. |
| `SetSafety.SetKeepsOthers` | lib/disir_config_query.c:274-388 | After a success every other name that led to a context leads to the same one, and a keyval there has the value it had. |
| `SetSuccess.SetSucceedsIff` | lib/disir_config_query.c:274-388 | On a valid config setting succeeds exactly if the query fits its buffer and every key leads to a context that is there or can be added: the next index, a legal name, room for one more at the version of the mold and at that of the config, sound defaults in a new section, and a keyval at the end that takes the value. |
| `SetSuccess.GrowIff` | lib/query.c:119-365 | The same from any section on, for the missing sections on the way. |
| `SetSuccess.LeafAnswers` | lib/disir_config_query.c:153-271 | What making a keyval is refused with, reason by reason. |
| `SetSuccess.SectionAnswers` | lib/query.c:160-283 | What making a missing section is refused with, reason by reason. |
| `SetSuccess.SetAnswers` | lib/context_value.c:394-853 | What setting a keyval that is there returns, and that a query that leads nowhere for good returns its status. |
| `SetSuccess.GetAnswers` | lib/disir_config_query.c:93-150 | What reading returns: the value if the type is right, where a string also reads as an enum. |
| `SetSafety.GrowGood` | lib/query.c:119-365 | Making missing sections and the leaf keeps a place valid, or leaves it as it was. |
| `SetSafety.KeptGood` | lib/disir_config_query.c:372-384 | A new section is never kept because only its elements are invalid: that cannot happen here. |
| `SetSafety.GoodConfigIff` | lib/validate.c:585-859 | What the results ask of a config: valid and linked to a well-formed mold. |
| `SetSafety.ExchangedGood` | lib/context_value.c:394-853 | Setting an existing keyval keeps the config valid or unchanged. |
| `SetSafety.AlikeResolves` | lib/query.c:368-413 | Names keep their meaning in any config whose contexts stand where they stood. |
| `Update.RetrieveAll` | lib/update.c:18-72 | The recursion collects the keyvals up to the end of the first section. |
| `Update.CollectedIff` | lib/update.c:18-72 | A keyval is collected exactly when no section stands before it at any level. |
| `Update.BehindSectionNotCollected` | lib/update.c:18-72 | Of a section and a keyval behind it, the keyval is never collected, only keyvals in the section are. |
| `Update.CollectedDistinct` | lib/update.c:18-72 | No keyval is collected twice. |
| `Update.JudgeKeyval` | lib/update.c:187-223 | The comparisons for one keyval decide between keeping, overwriting and a conflict. |
| `Update.ThreeWayMerge` | lib/update.c:187-243 | Conflicts are exactly the values that differ from both defaults while a newer one is in force; a value equal to the old default comes out equal to the new one and any other is unchanged. |
| `Update.UnchangedDefault` | lib/update.c:187-202 | With an unchanged default entry a keyval is kept, unless the entry is newer than the config and the value differs. |
| `Update.OldTargetIsUnchanged` | lib/update.c:187-195 | An entry not newer than the config that is active at the target is also active at the config's version. |
| `Update.MergedAt` | lib/update.c:170-253 | Exactly the keyvals examined so far have what they come to; everything else is as it was. |
| `Update.Upgrade.Continue` | lib/update.c:150-253 | Goes on to the next conflict and stops there, or examines the rest and moves the version; a pending conflict blocks it; the new config is not touched. |
| `Update.Upgrade.Examine` | lib/update.c:172-245 | Each collected keyval is examined once, in order, and counted if it is overwritten. |
| `Update.ChangesIs` | lib/update.c:172-245 | What is counted is how many keyvals are not kept. |
| `Update.Upgrade.Resolve` | lib/update.c:282-329 | A resolution sets the value of the same leaf name at the root of the new config; a failure leaves value and conflict as they were, and the new config stays valid. |
| `Update.ResolvedGood` | lib/update.c:282-329 | A resolution keeps a valid new config valid. |
| `Update.Upgrade.Offers` | lib/update.c:256-279 | A conflict offers the keyval's own value and the new default. |
| `Update.OfferedIsParsedIff` | lib/util.c:167-226 | Resolving with an offered text means the value it was made from, for a string exactly when it is shorter than 512 bytes. |
| `Update.OfferedIs` | lib/util.c:167-226 | The texts of the values that need no cutting. |
| `Update.TextMeans` | lib/context_value.c:215-331 | Which texts mean which values: any string, a leading one, zero, t or f for a boolean, what strtol takes for an integer. |
| `Update.LongStringCut` | lib/util.c:180-194 | A string of 512 bytes is not offered as it is. |
| `Update.ResolvedStatus` | lib/context_value.c:215-331 | A resolution succeeds, and violates a restriction, exactly depending on the keyval the bare leaf name leads to and on what its mold allows. |
| `UpdateOutcome.ValidIffHolds` | lib/validate.c:585-859 | Contexts linked to the mold are valid exactly when the counts hold at every level and every value is allowed. |
| `UpdateOutcome.UpdatedIsValidIff` | lib/update.c:150-253 | After any number of examined keyvals the config is valid at a version exactly when its counts before the update hold there at every level and every keyval's outcome is allowed there. |
| `UpdateOutcome.InPlaceIsValidIff` | lib/update.c:246-249 | A valid config updated without conflicts is valid at its new version exactly when that condition, checked before the update, holds. |
| `UpdateOutcome.ReplayedRoots` | lib/update.c:282-329 | Over any resolutions the new config is the generated one with exactly the first root keyval of each resolved leaf name exchanged, for the value set last. |
| `UpdateOutcome.NewConfigReads` | lib/update.c:331-341 | What the new config reads under the name of any keyval of the old one, nested or not: nothing beyond the minimum of instances at some level, the last value set for a resolved leaf name at its first root keyval, and the new default otherwise. |
| `UpdateOutcome.KeptReadsIff` | lib/update.c:331-341 | A keyval reads the same in the new config exactly when it lies within the minimum of instances at every level and its value after the merge is the one set last for its name there, or else the new default. |
| `UpdateRuns.BeginUpdate` | lib/update.c:75-147 | Which updates are refused, with nothing changed, and how the others start. |
| `UpdateRuns.StartsIff` | lib/update.c:95-147 | An update starts exactly if the target is newer than the config and not newer than the mold, and every default instantiated there is allowed; and what the others are refused with. |
| `UpdateRuns.Run` | lib/update.c:150-329 | Over any run of continue and resolve calls the statuses are those of the calls one by one, the update stays in order, the new config stays valid and is the generated one with the resolutions replayed, and the version moves only at the end. |
| `UpdateDriver.AttemptedIff` | lib/update.c:391-406 | The attempts fail and the loop goes on all the same exactly when values may be discarded, the root keyval of the leaf name does not allow the conflict's own value, and the new default cannot be set there either. |
| `UpdateDriver.Turn` | lib/update.c:386-409 | A turn makes no progress exactly then, and changes nothing; otherwise it ends the loop, or goes on to the next conflict with the value set. |
| `UpdateDriver.StuckEnds` | lib/update.c:386-409 | At a conflict of that kind the loop never ends, or, if values may not be discarded, the update fails there. |
| `UpdateDriver.UpdateWithChanges` | lib/update.c:371-421 | The whole call: refused, updated in place, replaced by the new config, failed with what was examined so far, or never returning. |
| `UpdateFates.FateIs` | lib/update.c:391-406 | Whatever was resolved before, the attempts at a conflict come to the fate told from the mold and the keyval alone: a value is set, the update fails with a status, the same turn repeats, or the program ends. |
| `UpdateEndings.EndingIs` | lib/update.c:371-421 | The ending is the one foretold from the config and its mold: refused; in place without conflicts; replaced by the generated config with the settled values if every conflict is settled; otherwise failed with what was examined up to the first conflict that is not, repeating it forever, or ending the program, as its fate says. |
| `UpdateEndings.ReturnsIff` | lib/update.c:371-421 | The call returns exactly if it is refused, every conflict is settled, or the first one that is not fails; it repeats forever, updates in place, and replaces the config exactly under conditions of the same kind. |
| `UpdateEndings.EndingIsValidIff` | lib/update.c:371-421 | What each ending leaves is valid exactly under a condition on the config before the update: after settled conflicts always, in place if it fits, after a failure if the counts and the outcomes up to the first unsettled conflict fit. |
| `UpdateEndings.LastSettled` | lib/update.c:282-329 | The value set last for a leaf name is that of the last settled conflict of the name, wherever its keyval stands. |
| `UpdateEndings.NoneSettled` | lib/update.c:282-329 | A leaf name of which no conflict is settled is never set. |
| `UpdateEndings.ReplacedReadsIff` | lib/update.c:331-341 | After an update that replaces the config, exactly when a keyval reads there what it was merged to. |
| `UpdateEndings.RootNeverLoops` | lib/update.c:391-406 | The fate of a conflict of a root keyval that is no float is never to repeat itself. |
| `UpdateEndings.RootConflictNeverStuck` | lib/update.c:391-406 | A conflict of a root keyval that is no float is never stuck, whatever was resolved before. |
| `UpdateEndings.RootsAlwaysEnd` | lib/update.c:371-421 | So the loop ends on every config in which only such keyvals are compared. |
| `UpdateExamples.UpdatedInPlaceIsInvalid` | lib/update.c:246-249 | A valid config updated in place without a conflict that is invalid at its new version. |
| `UpdateExamples.KeptValueNotReturned` | lib/update.c:331-341 | A valid config with a conflict; resolving it hands out a config in which another value, which the merge keeps, is gone. |
| `UpdateExamples.NestedOverwritesRoot` | lib/update.c:282-329 | A valid config with a root and a nested keyval of one leaf name: the update stores the value of the nested one at the root, and the nested one gets its default. |
| `UpdateExamples.StuckForever` | lib/update.c:386-409 | A valid config on which the loop never ends if values may be discarded, and the update fails if not. |
| `Import.ImportEntry.Resolve` | lib/disir_import.c:355-477 | One call on one entry: what it returns and leaves, and whether it returns. |
| `Import.ChoiceIs` | lib/disir_import.c:355-477 | What each choice does: only doing an entry is refused because a config exists already, forcing is not; a marked entry can only be discarded; an update needs an entry in conflict. |
| `Import.NeverImported` | lib/disir_import.c:368-375 | An entry that cannot be imported refuses every choice. |
| `Import.UpdateEndsWith` | lib/disir_import.c:387-405 | What an update returns and leaves, by its ending. |
| `Import.ImportEntry.UpdateConfig` | lib/disir_import.c:387-405 | The update replaces or keeps the entry's config, and the flags that validating it goes by. |
| `Import.DecideKeepsSound` | lib/disir_import.c:355-477 | An entry that cannot be imported never changes and is never marked; a marked one changes only by being discarded, and its config not even then. |
| `Import.NeverReturnsIff` | lib/disir_import.c:387-405 | A call never returns exactly when it is an update that starts and the first conflict that is not settled, told from the config before the call, repeats itself or is about an enum. |
| `Import.MarkedIff` | lib/disir_import.c:463-474 | An update marks an entry exactly if it starts and has conflicts that are all settled, or none and nothing was flagged when the config was validated last; any other choice exactly if it is allowed and nothing was flagged. |
| `Import.MarkedIsValidIff` | lib/disir_import.c:463-474 | The config a call marks is valid exactly if it was forced or done and valid before, or was updated and had a conflict, or fits at the new version as it was. |
| `Import.ForcedAsReadIsValid` | lib/disir_import.c:463-474 | An entry that was not updated since it was read is valid when it is forced or done. |
| `Import.UpdateMarksInvalid` | lib/disir_import.c:463-474 | Updating a certain valid entry marks a config that is not valid. |
| `Import.UpdateNeverReturns` | lib/disir_import.c:442-457 | Updating a certain valid entry with discarding never returns. |
| `Import.CarefulKeepsValid` | lib/disir_import.c:355-477 | In a run of calls on all entries where each call meets the condition that foretells a valid config, every config stays valid, and so does every marked one. |
| `Import.Archive.ResolveEntry` | lib/disir_import.c:355-367 | Only the entry asked for changes; an index out of range is refused. |
| `Import.AnsweredIs` | lib/disir_import.c:355-367 | An index out of range is refused; otherwise only the entry asked for changes, as it alone would. |
| `Import.Archive.ResolveAll` | lib/disir_import.c:355-477 | Any run of calls returns and leaves what the calls one by one do; every entry stays sound, and those that cannot be imported stay as they were. |
| `Import.Archive.Finalize` | lib/disir_import.c:507-647 | Exactly the marked entries are written, in order, and failures are counted. |
| `Import.ImportEntry.ReportLine` | lib/disir_import.c:583-614 | Each entry gets exactly one of the four outcomes. |
| `Import.ReportIs` | lib/disir_import.c:583-614 | Which of the four outcomes it is. |
| `Import.MarkedUpToIs` | lib/disir_import.c:572-582 | Each marked entry is written once, in order. |

## Left out

- Styled writers, error recovery and source offsets of the JSON code; a number that does not fit an integer stays a token. Nested values are compared by keys and values, not by insertion-order bookkeeping.
- JsonReader.Reader.ReadToken: a comment is an error token here; the source skips comments.
- JsonReader.Reader.ReadOne: a number token that is no integer is accepted as it is; the source reads it as a double and refuses what the stream extraction rejects.
- JsonReader.ParseDocument: documents with comments are therefore refused, and such numbers accepted.
- JsonWriter.FastWriter.Write: a double is given by the text the library prints for it.
- Rounding: floats of the engine are real numbers, and how the C library prints and parses them is a parameter where it matters (`Update.Offered`, `Update.ParsedValue`).
- Capacity and reallocation of the collection's array, failed allocations, message texts and the teardown of contexts. Using a section again after it was destroyed on the error path of dx_query_ensure_ancestors (lib/query.c:297-335) is a matter of memory lifetime and not part of this model.
- Documentation entries, dc_compare, FATAL contexts and renaming a finalized context.
- Versions of 2^31 and above: components are below 2^31, where the comparison is an order (`Versions.CompareAgrees` says what happens above).
- Mold validation: a mold's own keyvals, defaults and restrictions are taken as they are. `LeastConfig.WellFormed` names what the results need of a mold.
- Restrictions.ExclusiveValueCheck: integers are compared exactly; the source casts them to double first, so that above 2^53 they are compared rounded.
- EditDistance.LevenshteinDistance: the result for two empty strings is not stated, because the loop then returns an element of the column that was never written.
- Setter.LiveConfig.SetKeyval: contexts are values in the live config, and the loop over keys in dx_query_ensure_ancestors is a recursion; sharing of contexts between callers is not captured. On configs with contexts flagged invalid, whose keyvals also accept values of another type, nothing is stated.
- Setter.LiveConfig.GetKeyval: a keyval that lost its mold equivalent is not distinguished.
- Update.Upgrade.Resolve: an enum cannot be resolved, because dc_set_value ends the program on it (`Update.GivesUp`).
- Update.Upgrade.Offers: behind the 511 bytes copied from a longer string the buffer is undefined; the model ends the text there.
- UpdateDriver.UpdateWithChanges: a run that never ends, or that ends the program, is reported by an out-parameter, and nothing is said of what it leaves in memory. Releasing the config that was replaced is not modelled.
- Import.ImportEntry.Resolve: the flags of a config are summed up in one field, whether any context is flagged; a call that never returns is reported by an out-parameter.
- Reading archives, plugins, files, logging, the command line tool apart from its edit distance, and the TOML reader and writer.
