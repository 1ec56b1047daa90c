# Access decisions, policies and stored files: a verified model

This project models the parts of the system in which one answer depends on several components agreeing: how an
access condition becomes a CP-ABE policy and who can then open a file, how stored bytes move when policies change,
and the ledgers and counters around it. All laws below are about the model; each file names its source.

## What is modelled

- **Conditions to keys.** `Conditions` is the evaluator, `PolicyCompiler` the compiler to parenthesised policy text,
  `PolicyLexer` and `PolicyParser` the way back to a tree, `KeyAttributes` the attribute words of a private key.
  `PolicyPipeline` joins them: the key opens the text exactly when the evaluator allows. `TwoBackEnds` and
  `NativeKeys` do the same for the back end with native negation and compare the two. `MergedGrants` is the
  disjunction of several grants, `OwnerBypass` the leaf scan that lets owners in.
- **The visual builder.** `VisualBuilder` prints a rule tree and reads it back through `ConditionText`;
  `BuilderPage` is the mutable page; `BuilderToKey` runs from the tree on screen to the opened file.
- **Stored files.** `Reencryption` is the state machine of uploads, new versions and policy changes over
  the stored paths of `PhysicalPaths` and `VersionPaths`, and `StoredObjects` says which object a path names on each of
  the four storages; `StoreRuns` says who can open the latest version through a run, when stored objects cannot
  collide, and what happens when they do; `FolderRename` is about folder policies and what a rename does to them,
  `UniqueNames` about the search for a free name.
- **The ciphertext frame.** `HybridFrame`: layout, offsets, integer encodings, and the header as additional data.
- **Ledgers and counters.** `AuditChain`, `RateLimiter`, `LoginGuards`, and `AccessDecisions` for the order of
  policies.

## Assumptions

- Names and constants in conditions, and the allowed values of definitions, are non-empty words over `[a-z0-9_]`.
  User values may be any text (`TruthfulIff` and `BlankSpeaksForAnother` say what spaces and capitals do); for TKN20
  they hold no blank, comma or capital.
- A condition compares `r.sub.<name>` with string constants, once, combined by `and`, `or` and `not`.
- For `!=` and `not in` the user's value is a listed one; `ComplementExact`, `NativeLeafIff` and `LeavesPartIff` say
  exactly what happens otherwise.
- Values in the builder are quote-free and on one line, without backslashes.
- A number as an attribute value comes with its printed text, which the key holds; it equals no string.
- AES-GCM (NIST SP 800-38D, section 7), the ABE wrapping and the hashes are functions known by their laws only:
  unwrapping and opening invert wrapping and sealing, the audit hash has no collisions and never gives
  `GENESIS_BLOCK`, the empty text or a text with `|`. `DecryptedFrameIsBuilt` also assumes that only sealed bodies open.
- The fields of honestly saved audit rows hold no `|`; a row's user is not removed later.
- Requests run one at a time, the cache works and a key expires exactly at its time to live. There is one bucket.
- An object store takes a path as the name of the object, character by character. A local disk walks it component by
  component from the bucket's directory, without symbolic links and with case kept; a path that runs through a file or
  names a directory is a failure of the storage. The characters that name a directory at the moment of a deletion call
  are a parameter (`blocked`).
- Handed a string where it expects a list of paths, the Supabase library refuses, the Google library stops at the first
  name that is no object, and S3 takes all characters; these libraries are not part of this model.
- The libraries' policy parsers are not part of this model. The grammar used instead is the usual one: `or` binds
  weaker than `and`, atoms are words, parenthesised policies and `not` before one of these.
- The text of the audit time stamp is a field of its own beside the time it sorts by.

## Where the code does not do what its documentation says or suggests

- "60 requests per minute per IP" (`src/crypto_access/middleware/rate_limit.py`, line 12) holds window by window; in a
  free interval of a minute up to 119 requests pass (`PassedExactly`, `LimitHoldsIff`, `AtMost119InAMinute`,
  `BurstAcrossWindows`).
- The comment at line 243 of `src/vault-plugin/plugin/hybrid-cp-abe.cpp` puts the length before the nonce and a tag
  before the body; the code writes nonce, length, wrapped key and then the AEAD output. The model follows the code.
- A folder rename never succeeds: `move_file` is called with a keyword `user`
  (`src/crypto_access/views/storage.py`, line 1616) that neither the interface nor any adapter accepts, so the
  transaction is undone and the answer is 500 (`AsWrittenNeverRenames`). What is proved about inheritance and path
  collisions is about the rewriting loops, and about requests with that call repaired.
- With it repaired, the check for `<new>/.folder` misses folders without that marker, and two files can get one path
  (`MarkerGuardIsNotEnough`, exact in `DistinctIffNoCollision`).
- A policy change does not delete the old object: `delete_file` expects a list of paths and is handed a string (lines
  1896 and 1921), so its characters are taken for paths. The old object, at a first assignment the plaintext, stays
  (`OldObjectStays`, `FirstAssignmentLeavesPlaintext`), and files of one-character names can lose their bytes
  (`DeletionTakesAnother`, exact in `AssignConservesIff`).
- Stored paths can collide (`VersionTakesAnother`, `SameSecondTakesAnother`); `CleanRunConserves` says when they do not.
- On a local disk different spellings of a path, such as "ab/c" and "ab//c", are different records and one object
  (`DoubledSlashTakesAnother`, exact in `UploadConservesIff` and `AssignConservesIff`).
- `&&` and `||` are rewritten inside quoted values too: "a&&b" is compared, compiled and shown again as "a and b"
  (`DoubledComesBackRewritten`, exact in `RuleMeansIff` and `RoundTripIffNormal`). A single `&`, as in "R&D", is safe.
- `verify_chain` falls back to the deep scan, which starts from the first row and overwrites the cached state: a log
  cut off behind any row passes (`TruncatedLogPasses`), though the cached state would have told (`TamperEvident`).
- The quick check passes an emptied audit log, and whatever stands before the last two rows (`QuickSeesOnlyTheEnd`).
- The builder's page leaves operands under a `not` out of the tree it shows, so that saving it again can widen access
  (`NotIsLeftOut`, `NotIsForgotten`); without `not` the tree means what the condition means (`ReloadMeansSame`).
- The text given to the AC17 library has `and` and `or` in quotes like attributes, so a quoted connective has to be
  taken for a connective there. The model parses the tokens, which that text determines (`RenderedTokens`).
- For `!=` and `not in` the two back ends part at a held value that neither the definition nor the condition lists:
  the native one opens, the enumerated one does not (`LeavesPartIff`).
- A condition that cannot be expressed (a `not`, or no remaining value) is stored as empty or unreadable policy text,
  not refused (`ReadableIffCompilable`). An empty text on upload means no encryption.
- Keys are lower-cased and split at spaces, the evaluator compares exactly (`CaseExact`, `BlankSpeaksForAnother`).
- `==` on clearance and role means "exactly" to the evaluator and "at least" to a key (`HierarchyIsDominance`).
- Extending an owner's clearance or role to a list takes the levels below it out of the key (`ExtensionLosesLevels`),
  and a value None becomes the word "none" (`NothingSpeaks`).
- An upload of a new version with a policy that is already assigned stores the version and then answers 500, since the
  assignment is unique (`StoredDespiteError`).

## Model

| member | source | states |
|---|---|---|
| `Conditions.Visit` | src/crypto_access/services/casbin_service.py:46-61 | the short-circuit visitor returns the condition's truth value, which has no order of evaluation |
| `Conditions.VisitCompare` | src/crypto_access/services/casbin_service.py:63-87 | one comparison by `==`, `!=`, `in` or `not in`; an absent attribute is None and fails the first and third |
| `Conditions.NotMovesInwards` | src/crypto_access/services/casbin_service.py:46-61 | `not` exchanges conjunction and disjunction, for any number of operands |
| `Conditions.NotTurnsComparisons` | src/crypto_access/services/casbin_service.py:58-87 | `not` turns `==` into `!=` and `in` into `not in`, and back |
| `Conditions.OperandInFront` | src/crypto_access/services/casbin_service.py:46-57 | a conjunction needs its first operand and the rest, a disjunction is content with one of them; empty ones are true and false |
| `Conditions.ComparesStrings` | src/crypto_access/services/casbin_service.py:63-87 | `==` asks for the very string, `in` for `==` with an element; a missing attribute and a value that is no string fail both and pass `!=` and `not in` |
| `Conditions.PositiveMeansSame` | src/crypto_access/services/casbin_service.py:46-87 | every condition has an equivalent one without `not`, and so has its opposite |
| `PolicyTree.SatisfiesMonotone` | src/crypto_access/models/policy.py:129-205 | AC17 policies are monotone: a larger key satisfies whatever a smaller one does |
| `PolicyTree.AllLeavesSatisfy` | src/crypto_access/views/storage.py:136-152 | a key that holds every leaf satisfies every AC17 policy |
| `PolicyTree.LabelOfLeaf` | src/crypto_access/models/policy.py:150-157 | name and value can be read back from `name:value`; a text without a colon is a name alone |
| `PolicyCompiler.BuildRabe` | src/crypto_access/models/policy.py:129-205 | the text built by the string loops is the print of one tree with one gate for each connector, empty where nothing is expressible |
| `PolicyCompiler.BuildLeaf` | src/crypto_access/models/policy.py:136-201 | each comparison becomes its leaf, its or-chain or, for TKN20, its chain of negations, with the empty text in the error cases |
| `PolicyCompiler.WrittenLists` | src/crypto_access/models/policy.py:150-201 | the very texts: `name:value`, `or` and `and not` chains grouped to the left, nothing for an empty list |
| `PolicyCompiler.WrittenGates` | src/crypto_access/models/policy.py:129-135 | the very text of a connective: a pair of parentheses for each pair of operands, grouped to the left |
| `PolicyCompiler.KeepAllowed` | src/crypto_access/models/policy.py:189-189 | the comprehension keeps the allowed values that remain, in their order |
| `PolicyCompiler.AccessPolicy.Save` | src/crypto_access/models/policy.py:116-127 | saving recompiles in place; an empty condition leaves the old text standing, an unparsable one erases it |
| `PolicyCompiler.RemainingExact` | src/crypto_access/models/policy.py:189-189 | a value remains exactly when it is allowed and not excluded |
| `PolicyCompiler.RemainingInOrder` | src/crypto_access/models/policy.py:189-189 | and the remaining values keep the order of the definition |
| `PolicyCompiler.CompleteIffCompilable` | src/crypto_access/models/policy.py:129-205 | the compiled tree is whole exactly when the condition has no `not`, no empty list, and every `!=` and `not in` leaves an allowed value |
| `PolicyCompiler.CompiledWordy` | src/crypto_access/models/policy.py:129-205 | every leaf is `name:value` over words, and under AC17 no negation is left |
| `PolicyLexer.EnsureJsonString` | src/vault-plugin/plugin/ac17.cpp:40-77 | the stream and the two indices produce exactly the tokens of a one-pass definition of lexing, and the output is those tokens rendered, without the last blank |
| `PolicyLexer.SplitAtParens` | src/vault-plugin/plugin/ac17.cpp:49-66 | the inner loop cuts one blank-free stretch as the definition does |
| `PolicyLexer.SplitAttributes` | src/vault-plugin/plugin/ac17.cpp:26-37 | the non-empty fields between spaces, in order |
| `PolicyLexer.LexPrint` | src/vault-plugin/plugin/ac17.cpp:40-77 | lexing a printed policy gives its words and parentheses in order, at any depth |
| `PolicyLexer.LexDropsOnlyBlanks` | src/vault-plugin/plugin/ac17.cpp:40-77 | on any input the tokens run together are the lower-cased input without its blanks, and no word is empty or holds a blank or parenthesis |
| `PolicyLexer.BlanksSeparate` | src/vault-plugin/plugin/ac17.cpp:40-66 | six characters separate words, and capitals become small |
| `PolicyLexer.ParensSeparate` | src/vault-plugin/plugin/ac17.cpp:49-66 | parentheses separate words without any blank |
| `PolicyLexer.RenderJoins` | src/vault-plugin/plugin/ac17.cpp:70-76 | the rendered text is the tokens, words in quotes, with one blank between them |
| `PolicyLexer.RenderedTokens` | src/vault-plugin/plugin/ac17.cpp:55-76 | the rendered text that the library is given determines the tokens, so nothing is lost by quoting; `and` and `or` are quoted like attributes |
| `PolicyParser.PrintLexParse` | src/crypto_access/models/policy.py:129-205 | print, lex, parse is the identity on whole trees and fails on a tree with a hole |
| `PolicyParser.PrintInjective` | src/crypto_access/models/policy.py:130-157 | different policies have different texts, because every gate is parenthesised |
| `KeyAttributes.ExpandHierarchicalAttributes` | src/crypto_access/services/cpabe_service.py:326-363 | the words are exactly those some attribute grants: its own values, and for clearance and role all levels below |
| `KeyAttributes.ExpandOne` | src/crypto_access/services/cpabe_service.py:332-361 | the same for one attribute; falsy values grant nothing and lists are not expanded |
| `KeyAttributes.GenerateUserKey` | src/crypto_access/services/cpabe_service.py:365-371 | expansion, joining, lower-casing and splitting, in whatever order sets and dictionaries come, give one key determined by the user |
| `KeyAttributes.KeygenExact` | src/vault-plugin/plugin/ac17.cpp:189-195 | whatever the words and their order, the key holds exactly their lower-cased pieces between spaces |
| `KeyAttributes.OwnValueYields` | src/crypto_access/services/cpabe_service.py:326-371 | a value without a space gets into the key whatever its neighbours are |
| `KeyAttributes.KeyHolds` | src/crypto_access/services/cpabe_service.py:326-371 | for every user a word is in the key exactly when some granted word puts it there |
| `KeyAttributes.TidyYields` | src/crypto_access/services/cpabe_service.py:326-371 | without spaces in the user's values, a leaf is in the key exactly when its own attribute reaches, up to case, its value |
| `KeyAttributes.KeygenIsKeyOf` | src/crypto_access/services/cpabe_service.py:363-371 | the order in which the words are joined does not matter |
| `PolicyPipeline.KeyDecides` | src/crypto_access/models/policy.py:129-205 | a key satisfies a compiled policy exactly when, leaf by leaf, some accepted value is held, hierarchies included |
| `PolicyPipeline.ReadableIffCompilable` | src/crypto_access/models/policy.py:116-205 | the stored text reads back as the compiled tree, and as nothing at all exactly when the condition is not expressible |
| `PolicyPipeline.CompilerSound` | src/crypto_access/services/casbin_service.py:42-151 | whoever opens the compiled text is allowed by the evaluator, if the key is truthful about the attributes asked for |
| `PolicyPipeline.CompilerComplete` | src/crypto_access/services/casbin_service.py:42-151 | whoever the evaluator allows opens the compiled text, hierarchies and arbitrary other attributes included |
| `PolicyPipeline.CompilerCorrect` | src/crypto_access/models/policy.py:116-205 | the generated key opens the compiled text exactly when the evaluator returns true |
| `PolicyPipeline.WithoutNotOpens` | src/crypto_access/models/policy.py:116-205 | a condition with `not`, for which nothing is written, can be put into one whose text opens exactly to the users the evaluator allows |
| `PolicyPipeline.SoundIffTruthful` | src/crypto_access/models/policy.py:155-157 | each `==` on an attribute is decided soundly exactly when the key is truthful about it, so soundness cannot ask for less |
| `PolicyPipeline.TruthfulIff` | src/crypto_access/services/cpabe_service.py:326-371 | without spaces, the key is truthful exactly when the attribute's value has no capitals, is no truth value, no list of words and no level above the lowest |
| `PolicyPipeline.BlankSpeaksForAnother` | src/vault-plugin/plugin/ac17.cpp:26-37 | with a space in one attribute's value a user opens a policy on an attribute he does not have |
| `PolicyPipeline.CaseExact` | src/vault-plugin/plugin/ac17.cpp:189-190 | `==` and `in` agree with the key exactly when no accepted constant is the user's value in lower case only |
| `PolicyPipeline.ComplementExact` | src/crypto_access/models/policy.py:177-196 | enumerating the complement agrees with `!=` and `not in` exactly when the user's value is listed in the definition or in the condition |
| `PolicyPipeline.HierarchyIsDominance` | src/crypto_access/services/cpabe_service.py:342-361 | on clearance and role a key decides `==` as "at least", the evaluator as "exactly"; they part exactly when the user stands above |
| `PolicyPipeline.LevelsSpelledOut` | src/crypto_access/services/cpabe_service.py:342-361 | the four roles and four clearances in their order: which of them a key holds, and that other attributes bring their own value only |
| `PolicyPipeline.RaisingKeepsAccess` | src/crypto_access/services/cpabe_service.py:342-361 | raising clearance or role within the levels closes no policy text that was open |
| `TwoBackEnds.ConvertPolicy` | src/vault-plugin/plugin/tkn20.cpp:31-118 | the loops compute the converted text of which ConvertReadsBack speaks: words widened, negations wrapped, one blank between tokens |
| `TwoBackEnds.TextReadsBack` | src/vault-plugin/plugin/tkn20.cpp:111-117 | cutting a joined text at blanks and parentheses gives back exactly the tokens joined |
| `TwoBackEnds.ConvertReadsBack` | src/vault-plugin/plugin/tkn20.cpp:31-118 | the converted text of a whole tree, negations wrapped in parentheses, reads as that tree, and a tree with a hole does not read |
| `TwoBackEnds.BareWordOpens` | src/vault-plugin/plugin/tkn20.cpp:46-64 | a policy that is a bare word, in quotes or not, opens exactly to keys that were given the word |
| `TwoBackEnds.LeftAlone` | src/vault-plugin/plugin/tkn20.cpp:58-109 | an empty word is dropped, and a `not` before a parenthesis gets no second one |
| `NativeKeys.ConvertAttrs` | src/vault-plugin/plugin/tkn20.cpp:122-138 | blank-separated words become comma-separated pairs |
| `NativeKeys.KeyGen` | src/vault-plugin/include/tkn20/cpabe_tkn20.go:75-88 | the pairs enter a map in order, split at the first colon and trimmed |
| `NativeKeys.NativeKeyIsKeyMap` | src/vault-plugin/plugin/tkn20.cpp:122-138 | for words without blanks and commas, both conversions together give the map of the words, the last one of a label winning |
| `NativeKeys.BareWordsKey` | src/vault-plugin/plugin/tkn20.cpp:122-138 | words without a colon stand for themselves as label and value |
| `NativeKeys.LastWordWins` | src/vault-plugin/include/tkn20/cpabe_tkn20.go:75-88 | of several values for one label the last is kept |
| `TwoBackEnds.NativeLeafIff` | src/crypto_access/models/policy.py:163-196 | a leaf over native negation agrees with the evaluator exactly when, for `!=` and `not in`, the user holds the attribute; what the definition lists does not matter |
| `TwoBackEnds.NativeDecides` | src/crypto_access/models/policy.py:129-205 | native `not` over the key map decides a compiled condition as the evaluator does, for users who hold the negated attributes |
| `TwoBackEnds.LeavesPartIff` | src/crypto_access/models/policy.py:158-196 | enumerated complement and native negation part on a leaf exactly at a held value of a negative test that neither the definition nor the condition lists |
| `TwoBackEnds.BackEndsAgree` | src/crypto_access/models/policy.py:129-205 | where no negative test meets such a value, both back ends open the same conditions to the same users, from attribute text to policy text, even where the evaluator decides otherwise |
| `MergedGrants.MergedReads` | src/crypto_access/views/storage.py:1834-1836 | the texts joined by `or` in parentheses read as the disjunction of the trees |
| `MergedGrants.MergedMeansAny` | src/crypto_access/views/storage.py:1834-1836 | a key opens the merged text exactly when it opens one of the policies |
| `MergedGrants.AddingGrantKeepsReaders` | src/crypto_access/views/storage.py:1830-1842 | adding a grant keeps all readers and admits exactly those of the new policy |
| `OwnerBypass.ExtendOwner` | src/crypto_access/views/storage.py:138-152 | the token loop merges every leaf into scalar and list attributes, in order |
| `OwnerBypass.FindAllPrint` | src/crypto_access/views/storage.py:142-144 | the regular expression finds exactly the leaves of a printed policy, in order |
| `OwnerBypass.FindAllMerged` | src/crypto_access/views/storage.py:142-144 | and exactly the leaves of all policies in a merged text |
| `OwnerBypass.FindAllNeedsBoth` | src/crypto_access/views/storage.py:142-144 | a name or a value alone is no match |
| `OwnerBypass.FindAllApart` | src/crypto_access/views/storage.py:142-144 | matches do not overlap: of three words between colons the first two are one match |
| `OwnerBypass.AbsorbedCarries` | src/crypto_access/views/storage.py:143-152 | a pair once merged is never lost to a later one, scalars and lists included |
| `OwnerBypass.CarriesExactly` | src/crypto_access/views/storage.py:143-152 | the extended attributes carry what was carried before and the pairs found, and nothing else |
| `OwnerBypass.ListOrAsBefore` | src/crypto_access/views/storage.py:143-152 | an attribute becomes a list exactly when a pair brings a value it did not carry, else it stays as it was |
| `OwnerBypass.ExtensionLosesLevels` | src/crypto_access/views/storage.py:143-152 | an extended clearance or role brings exactly the two values and no level below either |
| `OwnerBypass.NothingSpeaks` | src/crypto_access/views/storage.py:146-152 | a value None or False becomes a word of the key once its attribute is extended |
| `OwnerBypass.OwnerAlwaysOpens` | src/crypto_access/views/storage.py:136-152 | whatever the owner held, spaces included, the key generated afterwards opens every listed policy text |
| `ConditionText.TokenizeSpell` | src/crypto_access/services/casbin_service.py:139-143 | text spelled from tokens reads back as those tokens (the fragment of Python the builder writes) |
| `ConditionText.TestOfReads` | src/crypto_access/services/casbin_service.py:63-87 | what is read as a comparison begins with the operator and the constant, or with `in [` or `not in [` |
| `ConditionText.OutsideFragment` | src/crypto_access/services/casbin_service.py:139-151 | a keyword as attribute name and a constant with a backslash or a line break are outside the fragment |
| `ConditionText.NormalizeIdentityIff` | src/crypto_access/services/casbin_service.py:139-139 | the operator rewriting leaves a text alone exactly when it has no doubled ampersand and no doubled bar |
| `ConditionText.RewrittenTokens` | src/crypto_access/services/casbin_service.py:139-143 | spelled text is read as its tokens, each quoted value rewritten on its own and nothing else touched |
| `VisualBuilder.BuildCondition` | src/static/js/policy-builder.js:151-183 | the recursion over groups and its `parts` produce the text of the group |
| `VisualBuilder.PrintedParses` | src/static/js/policy-builder.js:151-183 | the printed text of a tree with something in it parses, as the tree without its empty parts and with each value as the operator rewriting leaves it |
| `VisualBuilder.PrintedMeans` | src/static/js/policy-builder.js:151-183 | the evaluator's answer on the printed text is ALL and ANY over the parts of the tree that print, nesting included, for the values as rewritten |
| `VisualBuilder.NegatedMeans` | src/crypto_access/services/casbin_service.py:58-60 | `not` before a printed group in parentheses is read and evaluated as its negation |
| `VisualBuilder.RuleMeansIff` | src/crypto_access/services/casbin_service.py:139-139 | a rule printed and evaluated means what it says for all users exactly when its value has no doubled ampersand or bar |
| `VisualBuilder.RoundTripIffNormal` | src/crypto_access/views/policy.py:241-301 | printing and re-reading rebuilds the same tree exactly when inner groups have two children or more, all rules print, and no value has a doubled ampersand or bar |
| `VisualBuilder.NormalReloads` | src/crypto_access/views/policy.py:241-301 | in any case such a tree comes back with its rewritten values |
| `VisualBuilder.DoubledComesBackRewritten` | src/crypto_access/views/policy.py:289-301 | a rule on "a&&b" comes back as a rule on "a and b" |
| `VisualBuilder.ReloadMeansSame` | src/crypto_access/views/policy.py:241-299 | the tree shown for a condition without `not` means what the evaluator makes of the condition |
| `VisualBuilder.NotIsLeftOut` | src/crypto_access/views/policy.py:245-286 | operands under a `not` are left out of the tree, whatever stands beside them |
| `VisualBuilder.NotIsForgotten` | src/crypto_access/views/policy.py:245-286 | so a tree can hold for a user whom its condition shuts out: an example for all names and values |
| `BuilderPage.BuildAppends` | src/static/js/policy-builder.js:280-304 | building a node adds one child with that node's tree to its parent, under fresh numbers, and changes nothing else on the page |
| `BuilderPage.BuildAllFills` | src/static/js/policy-builder.js:298-300 | building a list of children fills the group with them, in order |
| `BuilderPage.Builder.BuildUIFromJson` | src/static/js/policy-builder.js:280-304 | the recursion over the page's mutable elements performs the build of which BuildAppends speaks |
| `BuilderPage.Builder.ShowTree` | src/static/js/policy-builder.js:242-266 | from any earlier page, the root afterwards shows the tree from the server |
| `BuilderPage.OfferedShown` | src/static/js/policy-builder.js:111-149 | a rule whose attribute and values the page offers is shown as it is |
| `BuilderPage.ShownIsOffered` | src/static/js/policy-builder.js:111-149 | whatever tree comes, the page shows offered attributes and offered values only, or blanks |
| `BuilderPage.ShownValue` | src/static/js/policy-builder.js:111-149 | what is shown of a value: itself if offered, blank if another, the first option in place of none; of a list, the offered part |
| `BuilderToKey.BuilderToReader` | src/static/js/policy-builder.js:151-183 | from the screen to the key: the policy compiled from what the builder printed opens exactly to the users for whom the tree holds |
| `BuilderToKey.PageRoundTrip` | src/crypto_access/views/policy.py:288-301 | a normal tree over offered values comes back from the server unchanged exactly when no value has a doubled operator, and the page shows it as it is |
| `Reencryption.FileStore.Upload` | src/crypto_access/views/storage.py:429-605 | a new file or a new version: path, response, bytes, record and assignment; the refusals, stated by path, permission and version flag, leave everything unchanged |
| `Reencryption.NewVersion` | src/crypto_access/views/storage.py:453-468 | the number exceeds all earlier ones; the policy is the chosen one or one of the file's own, and none exactly when none has a CP-ABE form |
| `Reencryption.FileStore.Assign` | src/crypto_access/views/storage.py:1761-1928 | adding or replacing a policy: decrypt as owner, encrypt under the merged or the new policy, write under the new path, and the deletion call as it is written |
| `Reencryption.RefusedExactly` | src/crypto_access/views/storage.py:446-456 | exactly which requests are answered 404, 403 and 400, which uploads 500, and that these, and all requests of a stranger to a known file, change nothing |
| `Reencryption.RecordAfterUpload` | src/crypto_access/views/storage.py:453-595 | what success does to the record: one version behind the others with the next number, the chosen policy in front |
| `Reencryption.RecordAfterAssign` | src/crypto_access/views/storage.py:1807-1928 | what success does to the record: the latest version only, under its number, and the new policy in front or alone |
| `Reencryption.OthersUntouched` | src/crypto_access/views/storage.py:453-595 | no request changes the record of another file |
| `Reencryption.StoredDespiteError` | src/crypto_access/views/storage.py:566-605 | a new version under a policy the file has already is stored, and answered 500 |
| `Reencryption.UnreadableChangesNothing` | src/crypto_access/views/storage.py:1807-1928 | a policy change answered 500 could not read the latest version, and changes nothing |
| `Reencryption.FileStore.Reencrypt` | src/crypto_access/views/storage.py:1807-1925 | the re-encryption itself, in place on the stored objects |
| `Reencryption.FileStore.DeleteFile` | src/crypto_access/services/storage/adapters/local.py:94-102 | the deletion loop over a string removes one-character names, up to the first that raises |
| `StoredObjects.NeatInjective` | src/crypto_access/services/storage/adapters/local.py:24-25 | paths name the same object only if they are equal: always on an object store, and on a local disk if no component is empty, "." or ".." |
| `StoredObjects.OtherSpellings` | src/crypto_access/services/storage/adapters/local.py:24-25 | on a disk a dot component stays, two dots go up, and a leading slash leaves the bucket |
| `StoredObjects.SweptCharacters` | src/crypto_access/services/storage/adapters/local.py:94-102 | the deletion call only reaches the objects of single characters of the old path: all of them on S3, and on a disk without slash, dot and directory among them; none on Supabase, none beyond existing objects on Google |
| `StoredObjects.LongPathsStay` | src/crypto_access/services/storage/interface.py:54-55 | so no object under a longer path is deleted, if that path is neat on a disk |
| `StoredObjects.AssignedStays` | src/crypto_access/views/storage.py:1852-1854 | nor is ever the object that a policy change has just written, however its path is spelled |
| `PhysicalPaths.PathParts` | src/crypto_access/views/storage.py:429-437 | folder and extension of a path: before the last slash, and behind the last dot after it |
| `PhysicalPaths.UniquePathKeeps` | src/crypto_access/views/storage.py:429-441 | under field encryption the fresh name keeps folder and extension |
| `PhysicalPaths.UniquePathsDiffer` | src/crypto_access/views/storage.py:434-436 | and different fresh names give different paths, whatever the files |
| `Reencryption.FileStore.OpenForOwner` | src/crypto_access/views/storage.py:116-215 | the decryption that precedes re-encryption: policy-free content as it is, bytes that look like a frame but are none fail, a frame opens to the owner's extended key |
| `Reencryption.OwnerDecrypts` | src/crypto_access/views/storage.py:136-152 | an owner, whatever attributes he has, gets back what was encrypted under a recorded policy |
| `Reencryption.OtherPolicyStaysClosed` | src/crypto_access/views/storage.py:136-152 | an object under a leaf that the recorded policy does not have stays closed to an owner without attributes |
| `Reencryption.PlainBytesUnderPolicy` | src/crypto_access/views/storage.py:205-213 | never encrypted bytes under a recorded policy come back unless they are empty or begin with 1 or 2 |
| `Reencryption.StepConserves` | src/crypto_access/views/storage.py:1761-1928 | every step that writes an object in no version's use, and whose deletion call misses the other versions, keeps: each version decrypts under exactly its recorded policy to the bytes uploaded for it, versions do not share objects, no upload is forgotten |
| `Reencryption.RunConserves` | src/crypto_access/views/storage.py:453-595 | the same after every run of such uploads, new versions, added and replaced policies |
| `Reencryption.OnlyPermittedChange` | src/crypto_access/views/storage.py:446-456 | over every run without collisions a file for which no permitted user asks keeps its record, its versions and their objects |
| `Reencryption.ReadersReadTheUpload` | src/crypto_access/views/storage.py:116-215 | after any run a key reads the uploaded bytes of a version exactly when the version is plain or the key opens its recorded policy |
| `Reencryption.UploadConservesIff` | src/crypto_access/views/storage.py:429-514 | an upload keeps every plaintext exactly when no version uses the object that its path names for anything but the very bytes written, whatever the spelling of the path |
| `Reencryption.AssignConservesIff` | src/crypto_access/views/storage.py:1847-1925 | a policy change keeps every plaintext exactly when each other version's object is missed by the deletion call and not overwritten with something else, again by object and not by spelling |
| `Reencryption.OldObjectStays` | src/crypto_access/views/storage.py:1887-1900 | the old object stays as it was unless its path is a single character that the call reaches, or is written again |
| `Reencryption.FirstAssignmentLeavesPlaintext` | src/crypto_access/views/storage.py:1843-1900 | a first assignment leaves the plaintext object in the storage |
| `StoreRuns.DeletionTakesAnother` | src/crypto_access/views/storage.py:1896-1896 | on a local disk a policy assigned to "data" deletes the bytes of the file "a" |
| `StoreRuns.VersionTakesAnother` | src/crypto_access/views/storage.py:455-456 | for every name, a new file of that name with "_v2" overwrites the second version of the file |
| `StoreRuns.SamePathTakesAnother` | src/crypto_access/views/storage.py:1852-1854 | any two files that a policy change at one time gives one path lose the first one's bytes |
| `StoreRuns.SameSecondTakesAnother` | src/crypto_access/views/storage.py:1852-1854 | "x_v1.txt" and "x_v2.txt" given a policy in one second end up in one object |
| `StoreRuns.SpellingTakesAnother` | src/crypto_access/services/storage/adapters/local.py:24-66 | any two files whose paths name one object: the second upload takes the first one's bytes |
| `StoreRuns.DoubledSlashTakesAnother` | src/crypto_access/services/storage/adapters/local.py:24-66 | on a local disk "ab/c" and "ab//c" are two records and one object, and the first one's bytes are lost |
| `VersionPaths.AssignedLabel` | src/crypto_access/views/storage.py:1852-1854 | under a name without "_v" a policy change turns every kind of path of the file into stem, time and extension |
| `VersionPaths.RenderInjective` | src/crypto_access/views/storage.py:429-456 | paths of different files, and of one file under different numbers or times, differ |
| `VersionPaths.RenderNeat` | src/crypto_access/views/storage.py:429-456 | a path made from a name whose components are neat is neat again |
| `StoreRuns.RenderApart` | src/crypto_access/services/storage/adapters/local.py:24-25 | such paths of clean names share an object only if they belong to one file and one number |
| `StoreRuns.CleanRunConserves` | src/crypto_access/views/storage.py:429-595 | if no name holds "_v" or is one character, on a local disk no component of a name is empty, "." or "..", and policies change in different, late enough seconds, no objects collide and every run conserves every plaintext, on each of the four storages |
| `Reencryption.LatestPlain` | src/crypto_access/views/storage.py:1807-1845 | before re-encryption the program always holds the latest upload's bytes |
| `StoreRuns.AddedPolicyOpens` | src/crypto_access/views/storage.py:1830-1845 | the policy an addition encrypts under opens exactly to the readers of the assigned policies and of the new one |
| `StoreRuns.RunOnlyGranted` | src/crypto_access/views/storage.py:1807-1928 | over every run, colliding paths or not, no key opens the policy of the latest version unless it opens a policy assigned to the file at that time |
| `StoreRuns.RunFromEmpty` | src/crypto_access/views/storage.py:433-605 | the same from an empty store on, with conservation where paths do not collide |
| `StoreRuns.AssignAdmitsExactly` | src/crypto_access/views/storage.py:1807-1928 | an addition removes no reader of an encrypted file and admits exactly those of the new policy; a replacement leaves exactly the readers of the new policy |
| `FolderRename.FolderPolicies` | src/crypto_access/models/storage.py:282-296 | the loop over path parts finds the policies of exactly the folders that cover the path |
| `FolderRename.UserGranted` | src/crypto_access/models/storage.py:319-334 | the early-return walk answers whether a covering folder grants the user |
| `FolderRename.LooksAtIffCovers` | src/crypto_access/models/storage.py:283-285 | component walk and string prefix with slash are the same thing |
| `FolderRename.MoveIsPrefixExchange` | src/crypto_access/views/storage.py:1594-1609 | both `replace(..., 1)` forms exchange the prefix and touch no later occurrence |
| `FolderRename.ReplaceFirstExact` | src/crypto_access/views/storage.py:1594-1609 | `replace(..., 1)` exchanges the first occurrence only and keeps all around it |
| `FolderRename.Namespace.RenameFolder` | src/crypto_access/views/storage.py:1490-1630 | answers, rewritten files and folder policies, and the rollback when the storage object does not move |
| `FolderRename.AsWrittenNeverRenames` | src/crypto_access/views/storage.py:1612-1630 | as written no folder is ever renamed: every request that passes the checks is answered 500, and nothing changes |
| `FolderRename.RenameRefused` | src/crypto_access/views/storage.py:1490-1592 | who is refused: everyone but administrators and data owners, a data owner with a foreign file in the folder; and no success onto a marker |
| `FolderRename.ValidNameIff` | src/crypto_access/views/storage.py:1498-1502 | a valid name is a run of letters, digits, `_`, `.` and `-`, with or without one line break behind it |
| `FolderRename.RightStripExact` | src/crypto_access/views/storage.py:1567-1567 | only slashes at the end are taken away, and all of them |
| `FolderRename.RepairedRenamesIff` | src/crypto_access/views/storage.py:1583-1621 | with the move call repaired, exactly when a request succeeds |
| `FolderRename.InheritedAfterRename` | src/crypto_access/views/storage.py:1592-1609 | after the rewriting loops a file inherits exactly what it did before and what already lay on its new path |
| `FolderRename.RenameKeepsPolicies` | src/crypto_access/views/storage.py:1592-1609 | the rewriting onto a free name keeps the inherited policies of every file, inside and outside the folder |
| `FolderRename.DistinctIffNoCollision` | src/crypto_access/views/storage.py:1592-1600 | the rewriting keeps paths distinct exactly when no file outside has a path that a moved file gets |
| `FolderRename.MarkerGuardIsNotEnough` | src/crypto_access/views/storage.py:1583-1616 | with the move call repaired, the `.folder` check lets a rename succeed that gives two files one path: an example |
| `FolderRename.LeadingSlashInherits` | src/crypto_access/views/storage.py:1567-1609 | files in a folder right behind a leading slash keep what they do not inherit from the root folder, and lose the rest |
| `FolderRename.EmptyFolderLosesRoot` | src/crypto_access/views/storage.py:1567-1609 | renaming the empty folder, which the path "/" names, takes all inherited policies from files without a slash |
| `FolderRename.LeadingSlashKeepsIff` | src/crypto_access/views/storage.py:1567-1609 | they keep their policies exactly when all of the root folder's also come from elsewhere and nothing else lies on the new path |
| `HybridFrame.EncryptBuffer` | src/vault-plugin/plugin/hybrid-cp-abe.cpp:122-230 | the appended buffer is header and body, the body sealed under the header as additional data; errors of either step are returned |
| `HybridFrame.ParseFrame` | src/vault-plugin/plugin/hybrid-cp-abe.cpp:322-359 | the moving 64-bit offset cuts an accepted frame into its parts and gives each malformed frame its error |
| `HybridFrame.DecryptBuffer` | src/vault-plugin/plugin/hybrid-cp-abe.cpp:307-439 | unwrap, re-encode, hash, open; an empty plaintext depends on the allocator |
| `HybridFrame.RefusedFrames` | src/vault-plugin/plugin/hybrid-cp-abe.cpp:320-378 | which bytes are refused before any key is asked, and with which error |
| `HybridFrame.FailedFrames` | src/vault-plugin/plugin/hybrid-cp-abe.cpp:366-420 | a built frame fails with the error of the unwrapping, or else with that of the opening |
| `HybridFrame.LittleEndianRoundTrip` | src/vault-plugin/plugin/hybrid-cp-abe.cpp:180-181 | a length written as eight bytes is read back |
| `HybridFrame.MinimalRoundTrip` | src/vault-plugin/plugin/hybrid-cp-abe.cpp:138-139 | decoding and re-encoding a minimal big-endian integer gives the same bytes, zero included |
| `HybridFrame.ReencodeStripsZeros` | src/vault-plugin/plugin/hybrid-cp-abe.cpp:385-390 | for arbitrary bytes re-encoding removes leading zeros and nothing else |
| `HybridFrame.CutLosslessIff` | src/vault-plugin/plugin/hybrid-cp-abe.cpp:325-359 | an accepted frame of either version is cut without loss exactly when the end of the wrapped key does not wrap around 64 bits |
| `HybridFrame.BuiltFrameCuts` | src/vault-plugin/plugin/hybrid-cp-abe.cpp:176-205 | a built frame is accepted and cut into the parts it was built from, header equal to additional data |
| `HybridFrame.BuiltFrameLayout` | src/vault-plugin/plugin/hybrid-cp-abe.cpp:176-205 | the bytes of a built frame at their offsets: 2, scheme, nonce, length with the low byte first, wrapped key, body |
| `HybridFrame.HybridRoundTrip` | src/vault-plugin/plugin/hybrid-cp-abe.cpp:137-217 | decrypting a built frame with a satisfying key returns the plaintext, for both schemes; the empty one exactly where allocating no bytes gives a pointer |
| `HybridFrame.FirstVersionOpens` | src/vault-plugin/plugin/hybrid-cp-abe.cpp:326-338 | a frame of version 1, which has no scheme byte, opens under AC17 |
| `HybridFrame.DecryptedFrameIsBuilt` | src/vault-plugin/plugin/hybrid-cp-abe.cpp:394-405 | conversely a version 2 frame that decrypts is the built frame of its own parts: no byte is free |
| `AuditChain.AuditLog.Save` | src/crypto_access/models/audit.py:155-180 | a row is linked to the last row, hashed and stored, and the cached state follows |
| `AuditChain.AuditLog.VerifyQuick` | src/crypto_access/models/audit.py:182-255 | the answer and the rebuilt cache, stated by the last row, the cached state and the last link |
| `AuditChain.AuditLog.VerifyDeep` | src/crypto_access/models/audit.py:257-308 | the list is that of the damaged rows, each once, in order; the cache moves only on success |
| `AuditChain.AuditLog.VerifyChain` | src/crypto_access/models/audit.py:310-322 | valid exactly when the quick check passes or the deep scan finds nothing, the ids reported, and the cached state left behind |
| `AuditChain.ContentIsHashed` | src/crypto_access/models/audit.py:146-153 | the hashed fields agree exactly when log id, user or "System", resource type, resource id or "", action, result, time text and link agree |
| `AuditChain.BrokenExact` | src/crypto_access/models/audit.py:283-293 | a log id is reported exactly when its row has a wrong link or a wrong own hash |
| `AuditChain.BrokenInOrder` | src/crypto_access/models/audit.py:283-293 | damaged rows are reported in the order of the log |
| `AuditChain.FirstLink` | src/crypto_access/models/audit.py:160-169 | in an intact log the first row links to `GENESIS_BLOCK` and each other row to the hash before it |
| `AuditChain.DeepThenQuick` | src/crypto_access/models/audit.py:295-303 | after an accepting deep scan of a non-empty log the quick check passes |
| `AuditChain.HonestRunPasses` | src/crypto_access/models/audit.py:155-180 | after every run of saves in time order both checks pass |
| `AuditChain.SaveIntactIff` | src/crypto_access/models/audit.py:160-169 | a save keeps an intact log intact exactly when its time stamp is not older than the last one |
| `AuditChain.SameHashSameFields` | src/crypto_access/models/audit.py:146-153 | equal hashes mean equal columns and links, if one of the two rows is free of bars: the other cannot shift its fields by bars |
| `AuditChain.SameHashSameLink` | src/crypto_access/models/audit.py:146-153 | whatever the other fields hold, equal hashes mean equal links |
| `Text.JoinOneWay` | src/crypto_access/models/audit.py:152-152 | two equally long joins agree only if the parts do, if the parts of one hold no separator |
| `AuditChain.AcceptedLogsAgree` | src/crypto_access/models/audit.py:279-293 | two accepted logs, one of them free of bars, that end in the same hash agree in length and in every column, row by row |
| `AuditChain.TamperEvident` | src/crypto_access/models/audit.py:146-293 | any log the deep scan accepts, whatever its columns hold, that ends in the cached hash has the honest length and the honest columns, row by row |
| `AuditChain.QuickGuardsTheEnd` | src/crypto_access/models/audit.py:196-255 | with the cached state of an honest run the quick check passes a non-empty log only if it has the honest length and the honest last row |
| `AuditChain.QuickSeesOnlyTheEnd` | src/crypto_access/models/audit.py:196-322 | but it passes an emptied log, and any rows in place of those before the last two; the wrapper then looks no further, and the cached state stays |
| `AuditChain.TruncatedLogPasses` | src/crypto_access/models/audit.py:295-322 | any non-empty beginning of an honest log passes the wrapper whatever the cache says, and the cache is then moved to the cut: unlike TamperEvident, it cannot see a truncation |
| `RateLimiter.GlobalRateLimit.Handle` | src/crypto_access/middleware/rate_limit.py:20-53 | who passes, and the counter entry left behind; uncounted requests change nothing |
| `RateLimiter.PassedExactly` | src/crypto_access/middleware/rate_limit.py:34-47 | in the 60 seconds from any moment: the requests before the open window's end share what it has left, those after share one full window |
| `RateLimiter.LimitHoldsIff` | src/crypto_access/middleware/rate_limit.py:12-15 | at most 60 pass in the 60 seconds from a moment, whatever is asked, exactly when no window is open then, or it is used up, or it ends no sooner |
| `RateLimiter.AtMost119InAMinute` | src/crypto_access/middleware/rate_limit.py:14-47 | in any 60 seconds of any run at most 119 requests of one address pass |
| `RateLimiter.WindowPassesExactly` | src/crypto_access/middleware/rate_limit.py:34-47 | within one window exactly the first 60 pass |
| `RateLimiter.BurstAcrossWindows` | src/crypto_access/middleware/rate_limit.py:12-15 | the bound is reached: 119 requests pass within a second and a half |
| `LoginGuards.LoginGuard.Login` | src/crypto_access/views/auth.py:176-208 | answer and counter of one attempt; other users' counters stay |
| `LoginGuards.LoginDecided` | src/crypto_access/views/auth.py:176-208 | which answer a login gets, told by what was asked before: locked after five wrong passwords in 900 seconds, else by the password; disabled accounts do not count |
| `LoginGuards.AtMostFiveFailures` | src/crypto_access/views/auth.py:178-208 | without a success, at most five authentications fail in any span shorter than 900 seconds |
| `LoginGuards.SixthAttemptAt` | src/crypto_access/views/auth.py:201-201 | after five failures at one moment a sixth is compared exactly when it comes 900 seconds later or more |
| `LoginGuards.SuccessStartsAfresh` | src/crypto_access/views/auth.py:176-208 | a success comes from a right password only, and after it counting starts afresh |
| `LoginGuards.OtpGuard.Verify` | src/crypto_access/views/auth.py:364-388 | answer, code and attempt counter of one verification; other tokens stay |
| `LoginGuards.OtpGuard.Issue` | src/crypto_access/views/auth.py:254-264 | a code lives 300 seconds under a fresh token |
| `LoginGuards.OtpDecided` | src/crypto_access/views/auth.py:364-388 | which answer a code gets: in the 300 seconds from the issue the first five are compared, the right one accepted and the wrong ones not, the sixth is too many, and all else is expired |
| `LoginGuards.OnlyRightAccepted` | src/crypto_access/views/auth.py:380-388 | from any state, only a right code is accepted |
| `LoginGuards.OtpAtMostFiveGuesses` | src/crypto_access/views/auth.py:364-388 | over every timed run a token sees at most five wrong comparisons and at most one success |
| `LoginGuards.AcceptedOnce` | src/crypto_access/views/auth.py:386-388 | after a success every later answer is that the code has expired |
| `UniqueNames.GetUniqueName` | src/crypto_access/views/storage.py:1205-1226 | the search ends, at the least counter whose path is free |
| `UniqueNames.SplitName` | src/crypto_access/views/storage.py:1198-1203 | base and extension make up the name; the extension is what follows from the last dot on, empty exactly when there is no dot or the name starts with one |
| `UniqueNames.SplitUnique` | src/crypto_access/views/storage.py:1198-1203 | no other split has that |
| `UniqueNames.AttemptReads` | src/crypto_access/views/storage.py:1221-1224 | a numbered name keeps its extension at the end and its number in parentheses, in decimal digits, before it |
| `UniqueNames.CandidatesDiffer` | src/crypto_access/views/storage.py:1221-1224 | different counters give different paths |
| `UniqueNames.OccupiedBound` | src/crypto_access/views/storage.py:1221-1224 | the search looks past no more names than there are occupied paths |
| `AccessDecisions.CheckAbac` | src/crypto_access/services/casbin_service.py:322-344 | the early-return scan; in terms of columns: no answer exactly when no active policy names resource and action and holds, else the effect of such a policy with the lowest number |
| `AccessDecisions.CheckAccess` | src/crypto_access/services/casbin_service.py:350-372 | superusers pass; anyone else is admitted only by an allow among the policies of the lowest number, and refused only by a deny there or when no policy matches |
| `AccessDecisions.CheckFileAccess` | src/crypto_access/services/casbin_service.py:502-547 | superusers and files without policies pass; else admitted only by an allow, refused only by another effect among the matching policies of the lowest number, or when none matches |
| `AccessDecisions.CheckFileAccessWithFallback` | src/crypto_access/services/casbin_service.py:549-571 | both checks have to allow |
| `AccessDecisions.DecideIsLeading` | src/crypto_access/services/casbin_service.py:326-344 | the answer is the verdict of a matching policy of the lowest priority number, and none exactly when nothing matches |
| `AccessDecisions.GlobalAnswer` | src/crypto_access/services/casbin_service.py:322-344 | the decision told by the columns active, resource, action, condition, effect and priority |
| `Text.TrimExact` | src/crypto_access/services/casbin_service.py:326-327 | trimming takes blanks away at both ends and leaves none there |
| `AccessDecisions.FileAnswer` | src/crypto_access/services/casbin_service.py:516-547 | the same for a file's policies: the action itself, the star, or reading, viewing and downloading for each of the first two |
| `AccessDecisions.OrderIndependentIffTiesAgree` | src/crypto_access/services/casbin_service.py:516-547 | the answer is the same for every order among equal priorities exactly when the leading policies agree |
| `AccessDecisions.FileAnswerFixed` | src/crypto_access/services/casbin_service.py:516-547 | then the file check answers the same for every order in which the policies arrive |
| `AccessDecisions.GlobalAnswerFixed` | src/crypto_access/services/casbin_service.py:326-344 | and so does the general check |

## Left out

- PolicyPipeline.CompilerCorrect: asks that the key be truthful, which is exact for soundness (SoundIffTruthful) and excludes clearance and role above the lowest level, where the two sides differ by design (HierarchyIsDominance); conditions with `not` are outside, since the compiler writes nothing for them (CompleteIffCompilable).
- TwoBackEnds.BackEndsAgree: attributes with several words in the key (clearance, role, extended owners) are outside, because the TKN20 key keeps one value per label and the order of the words is not fixed.
- Conditions.VisitCompare: one comparison of an attribute with constants; chained and ordering comparisons are not part of this model, and the compiler emits the latter as equality.
- PolicyCompiler.BuildRabe: the same fragment.
- PolicyCompiler.BuildLeaf: the same fragment, so the last branch for other operators is not reached.
- TwoBackEnds.ConvertReadsBack: the converted text is cut at blanks and parentheses; how the library itself reads it is not part of this model.
- NativeKeys.KeyGen: trimming removes the blanks of the C locale, not those Unicode adds.
- Reencryption.RunConserves: the objects written are free and the deletion call misses other versions, where AssignConservesIff and UploadConservesIff say exactly what happens otherwise; no folder policies, policy edits, removals of assignments, restores or deletions in a run, one scheme, no files from before versions were recorded, no failures of storage or encryption half-way; whether an inherited policy comes first is a parameter (`pick`), since the program takes it from a set.
- StoreRuns.RunOnlyGranted: speaks of the recorded policy of the latest version; objects written under earlier policies stay in the storage (OldObjectStays).
- Reencryption.FileStore.Upload: request validation, malware scan, signatures, metadata and URLs are not modelled.
- FolderRename.Namespace.RenameFolder: lookups through blind-index hashes and the renaming of single files are not modelled.
- FolderRename.RenameKeepsPolicies: folders right behind a leading slash are outside, and LeadingSlashKeepsIff is their exact case; so are files without a slash when the empty folder is renamed (EmptyFolderLosesRoot).
- HybridFrame.EncryptBuffer: null pointers, failing allocations other than that of an empty plaintext, wiping of key memory and the file variants are not modelled; the random key and nonce are parameters.
- AuditChain.AuditLog.Save: every saved row is new and has no hash yet; the log id is unique; row numbers as tie-break appear as the order of insertion.
- RateLimiter.GlobalRateLimit.Handle: a cache that fails lets requests pass in the program; the model's cache works. How the address is read from the headers is not modelled.
- LoginGuards.LoginGuard.Login: sessions, impossible-travel checks and tokens after a successful password are not modelled; accounts that are not active after authentication count as authenticated.
- AccessDecisions.CheckAbac: the action aliases are a parameter; attributes come as one map; exceptions while scanning are not modelled; conditions outside the fragment of ConditionText count as false.
- AccessDecisions.CheckFileAccess: conditions outside the fragment of ConditionText count as false.
- ConditionText: only the fragment of Python that the builder writes, with parentheses, `and`, `or`, `not`, `==`, `!=`, `in`, `not in`, string constants in single quotes on one line, and lists; chained and ordering comparisons, names, numbers, escapes and sets are not part of this model.
- OwnerBypass.ExtendOwner: the cached private keys and the decision who is an owner are not modelled.
- UniqueNames.GetUniqueName: the retry when the physical copy already exists is not modelled.
- The clipboard, trash, sharing and search actions, folder targets of policy assignment, serializers, pages and settings would add easy members only.
- Vault, storage service, mail, virus scanner, signatures and time stamps are foreign calls.
