# ANCHOR v1, verified

A Dafny model of the parts of ANCHOR v1 on which its guarantees rest: the pattern matcher that decides
what a capability may touch, the byte formats that every signature and digest is taken over, the
store that lets a capability be used once and a budget be spent once, the append-only logs, and the
chains along which authority may only get narrower. `dafny verify dfyconfig.toml` checks everything.

The model keeps the form of the source. Loops, growing buffers, readers with a position and objects with
fields are methods and classes with the same branches; each is proved to compute a function of its
inputs or of its old state, and the theorems are about that function. Expressions and recursion in the
source are functions here. What such a function means is in turn said without it: the files named after laws and formats
state it in literal characters and bytes, in the fields of what is checked, or in the calls made before.

| files | what they model |
|---|---|
| `Glob*.dfy` | target patterns: what a pattern means read off its text, tokenizer, matchers with one star bookmark, segments between `**`, and the laws of acceptance for each element of a pattern |
| `Radix.dfy`, `Base58.dfy` | positional notation, base58, `did:key` identifiers |
| `Cbor*.dfy`, `Utf8.dfy` | deterministic CBOR: strict syntax, values, the two key orders, the format of each kind of value written and read, round trips and their exact conditions, encoder and reader as they run; well-formed UTF-8 |
| `Ots*.dfy` | the OpenTimestamps tree and file codec, as functions and as loops over positions, which bytes are the writer's, and the format spelled out |
| `Canonical*.dfy`, `JsonFormat.dfy` | the canonical JSON writer, the text of each kind of value, a reader that undoes it, integers and the layout of floats |
| `Authority.dfy`, `Ledger.dfy`, `CapabilityStore.dfy` | capabilities, the tables of the store and its calls |
| `StoreRuns.dfy`, `StoreUse.dfy`, `StoreLaw.dfy`, `StoreBudget.dfy`, `PrepareCommit.dfy`, `PreparedRun.dfy` | runs of the store: one use, revocation, exactly when each call succeeds, mandates, budgets, optimistic commits of previews |
| `MerkleLog.dfy`, `EventMerkle.dfy`, `EventRoot.dfy`, `EventInclusion.dfy`, `CheckpointChain.dfy`, `LogLaw.dfy` | the transparency log, the evidence log, which lists share a root, what an inclusion path proves, signed checkpoints |
| `StepUpQuorum.dfy`, `ReplayWindow.dfy` | the process-wide challenge registries, the guardian's nonce memory |
| `DelegationChains.dfy`, `DelegationLaw.dfy`, `AttenuatedTokens.dfy`, `TokenChain.dfy`, `ConstitutionChain.dfy` | narrowing chains and the m-of-n constitution chain |

Conventions. A hash is any function; a result that needs collision resistance assumes only that the strings
named in its own `requires` do not collide, so no hash is assumed injective. Two hashes do not appear as functions: a delegation scope holds the hashes of
its caveats in place of the caveats, and a view of the state stands for its digest; there only the equality
of a view with itself is used, since it is the version that shows that nothing was written. A signed object carries the key
that really signed it, so that a signature check is a comparison. Errors are `None` or `Failed(..)`. Text
that the source compares or sorts as UTF-8 is held as bytes. Times and amounts of money in floating point
are reals.

## What the code does where its comments say something else

- The matchers are described as linear. What is proved is at most (n+m+1)(m+1) rounds for n characters and
  m tokens (`GlobMatcher.MatchTokensPrefix`), and at most (n+1)(n+m+1)(m+1) over all segments and starts for a
  pattern of m characters (`GlobTarget.TargetMatches`); no linear bound is claimed.
- A class such as `[/a]`, or one whose range spans `/`, can match the separator and other characters. Then the matcher
  can miss a target the pattern denotes: `*[/a]*b` denotes `a/b` and refuses it
  (`GlobTarget.AmbiguousPatternMissed`). It accepts nothing it should not, and a class is harmless exactly when
  it does not match both (`GlobTarget.SafeClassIff`).
- The CBOR encoder writes map keys shorter first (section 4.2.3 of RFC 8949); the decoder
  insists on bytewise order (section 4.2.1, the one the module names). Dicts such as
  `{1000: None, -1: None}` are written but not read back (`CborDeterminism.MixedKeysRefused`). With scalar
  keys a value comes back exactly when no key of a smaller major type is longer than one of a larger
  (`CborFragment.ExactRoundTrip`).
- The decoder accepts tag 2 or 3 around a small integer, so not every accepted byte string is what the encoder
  writes (`CborCanonical.TwoSpellings`); `CborCanonical.DumpsLoads` says exactly which ones are, and
  `CborFragment.PlainDumpsLoads` says it by looking at keys only.
- The audit path of a leaf on the right puts the sibling first, which differs from section 2.1.1 of RFC 6962 although the
  comment says otherwise. The two functions of the file fit together all the same
  (`MerkleLog.ProofRebuildsRoot`, `MerkleLog.PathOrder`).
- The evidence root does not determine every list: repeating the last block of an odd number of blocks keeps
  it, so six leaves collide with eight (`EventRoots.RepeatedLastBlock`, `EventRoots.SixLeaves`). Two lists share a
  root exactly when they pad to the same list (`EventRoots.RootsExactly`), hence never when the leaves
  are different, as those of a sealed slice are (`CheckpointChains.SliceBound`).
- `verify_inclusion` never reads the leaf index, and the range check declared on it is looked at before the number of
  leaves is known, so any index from 0 on passes (`EventInclusions.WrongIndexAccepted`). What a proof does prove is the
  place its directions spell (`EventInclusions.InclusionBindsPlace`); the index is right exactly when it is the one
  standing there (`EventInclusions.IndexExactly`).
- The checkpoint verifier does not ask that the first checkpoint starts at event 0
  (`CheckpointChains.LateStart`); sealing does. A checkpoint names the root of the one before and nothing
  else of it, so a head fixes one slice back (`CheckpointChains.PreviousSliceBound`) and no more
  (`CheckpointChains.HeadForgets`); with the events behind it, the whole log (`CheckpointChains.HeadBindsLog`).
- A holder proof is described as binding capability and challenge. What is signed is the id followed directly by
  the challenge, so a proof for one id serves another exactly when one id starts with the other
  (`Authority.ProofsConfused`, `StoreRuns.SharedProof`); ids of one length, which minting makes, are kept apart.
- The children of a mandate named by the empty string survive its revocation
  (`StoreRuns.EmptyMandateSurvives`), because the check skips falsy mandate ids.
- The store compares the spend with the limit in the presented payload, not with the registered one
  (`StoreBudget.TwinSpends`). The registered limit holds exactly when the presented payload has a limit no
  higher (`StoreBudget.RegisteredLimitHolds`).
- `mint_child` can return a child that is expired or has a negative staleness bound
  (`Authority.MintedVerifies`, `Authority.DeadChild`); `delegate` can return a receipt deeper than its own depth limit, which
  no verifier accepts (`DelegationChains.LowLimitMints`); `attenuate` can refuse its own construction when
  a parent lists two different caveats of one kind (`AttenuatedTokens.AttenuateExactly`,
  `AttenuatedTokens.TwoExpiries`).
- A `uses` caveat of one is judged by the nonce set, any other by the count, so the subsumption check says
  nothing when only one of the two limits is one (`AttenuatedTokens.SubsumptionIsSemantic`). Verification
  does not repeat the checks made when minting, so a limit of zero under a limit of one is such a case too.
- Url lists are compared as sets of texts, so a url below an allowed one is refused although it allows nothing more
  (`TokenChains.NarrowerUrlRefused`); expiries, prefixes and spend limits are compared by what they allow
  (`TokenChains.TighterExactly`).
- The table that a token's ancestors are taken from is not checked against its hashes: a chain is accepted through a
  wrong entry (`AttenuatedTokens.WrongEntryAccepted`), and names its parents exactly when every link followed is
  honest (`AttenuatedTokens.ParentsAreNamed`).
- A trust configuration asks for different key ids, not for different keys, so one key can be a quorum of two
  (`ConstitutionChains.OneKeyQuorum`); quorums count keys exactly when no key of the set stands under two ids
  (`ConstitutionChains.DifferentKeysExactly`).
- Two windows of memory stop replays only while the clock does not jump: replays are possible exactly on
  clocks that jump (`ReplayWindow.ReplayExactly`).

The OpenTimestamps format leaves the writer's form open, and the reader takes more than the writer makes: padded
numbers, and any order of elements. `OtsExact.WriterExactly` and `OtsExact.FileExactly` say exactly which
accepted bytes are the writer's; `OtsExact.PaddedFile` is a file that is not.

## Model

| member | source | states |
|---|---|---|
| GlobMatcher.MatchTokensPrefix | src/anchor_v1/agent_identity.py:737-771 | the loop with one star bookmark finds the end of the greedy placement from `start`, or none, within (n+m+1)(m+1) rounds |
| GlobMatcher.MatchTokensFull | src/anchor_v1/agent_identity.py:774-799 | the loop anchored at both ends decides the greedy placement of the whole text, within the same bound |
| GlobGreedy.AnchoredSound | src/anchor_v1/agent_identity.py:737-799 | whatever the greedy placement takes is in the language of the tokens, and a full match takes everything |
| GlobGreedy.AnchoredComplete | src/anchor_v1/agent_identity.py:737-799 | without `**` and ambiguous classes, a text with a match in the language is matched, and the end found is the least |
| GlobGreedy.FloatingComplete | src/anchor_v1/agent_identity.py:755-771 | the same behind a star: one bookmark is enough, no earlier star has to be revisited |
| GlobGreedy.AnchoredMonotone | src/anchor_v1/agent_identity.py:802-814 | a match that starts later never ends earlier |
| GlobGreedy.SeparatorFreeGap | src/anchor_v1/agent_identity.py:722-734 | when a run fits at two places with no separator between the two starts, the two ends have none between them either |
| GlobLanguage.InReverse | src/anchor_v1/agent_identity.py:817-823 | reversed tokens denote exactly the reversed texts, so a suffix match is a prefix match |
| GlobLanguage.MergeStarsSound | src/anchor_v1/agent_identity.py:670-719 | two adjacent stars denote what the one they are merged into denotes |
| GlobSegments.FindSegLeast | src/anchor_v1/agent_identity.py:802-814 | the leftmost placement of a segment ends no later than any other placement |
| GlobSegments.SegmentsMeaning | src/anchor_v1/agent_identity.py:849-864 | cutting at `**` and dropping empty segments keeps the meaning of the pattern |
| GlobSegments.AcceptSound | src/anchor_v1/agent_identity.py:826-882 | what placing the segments left to right accepts is in the language, for all tokens |
| GlobSegments.AcceptComplete | src/anchor_v1/agent_identity.py:826-882 | everything in the language is accepted when no class matches the separator and something else |
| GlobTarget.ParseClassBody | src/anchor_v1/agent_identity.py:649-667 | the loop over a class body yields its characters and ranges, none for an inverted range |
| GlobTarget.ReadClass | src/anchor_v1/agent_identity.py:670-719 | where a class opens, the token read and the place to go on agree with the grammar; an unclosed bracket is literal |
| GlobTarget.TokenizeTargetPattern | src/anchor_v1/agent_identity.py:670-719 | the loop that merges stars in place yields the collapsed tokens of the grammar, none above 2048 characters or for a bad range; what the tokens mean is `GlobTarget.MeansTokens` |
| GlobTarget.MeansTokens | src/anchor_v1/agent_identity.py:670-734 | the language of the tokens of a pattern is what its text means: stars, `?`, classes with ranges and negation, unclosed brackets, literals; a pattern with an inverted range in a class means nothing |
| GlobTarget.ClearTokens | src/anchor_v1/agent_identity.py:649-719 | where no class of the text lists the separator and something else, no token is ambiguous |
| GlobTarget.CollapseMeaning | src/anchor_v1/agent_identity.py:670-719 | merging stars while tokenizing does not change the language |
| GlobTarget.FindSegment | src/anchor_v1/agent_identity.py:802-814 | the loop over start positions finds the first placement, within n+1 times the rounds of one call |
| GlobTarget.MatchSuffix | src/anchor_v1/agent_identity.py:817-823 | matching reversed text against reversed tokens decides whether a segment ends the text |
| GlobTarget.PlaceSegments | src/anchor_v1/agent_identity.py:865-882 | the loop over segments decides the left-to-right placement with both anchors, within the rounds of its searches together |
| GlobTarget.TargetMatches | src/anchor_v1/agent_identity.py:826-882 | the whole matcher, caps included, decides acceptance, within (n+1)(n+m+1)(m+1) rounds for n characters of target and m of pattern; what is accepted is said by `GlobTarget.AcceptsIffDenoted` and the laws below |
| GlobTarget.AcceptedIsDenoted | src/anchor_v1/agent_identity.py:826-882 | only targets that the pattern means, read off its text, are accepted, whatever the pattern |
| GlobTarget.AcceptsIffDenoted | src/anchor_v1/agent_identity.py:826-882 | exactly the targets that the pattern means, read off its text, are accepted, both within the caps, when no class lists the separator and something else |
| GlobTarget.AmbiguousClassDenotes | src/anchor_v1/agent_identity.py:722-734 | `*[..]*b` with an ambiguous class denotes a text whose second character is the separator |
| GlobTarget.AmbiguousClassMisses | src/anchor_v1/agent_identity.py:737-799 | and the matcher misses that text |
| GlobTarget.AmbiguousPatternMissed | src/anchor_v1/agent_identity.py:670-882 | the pattern `*[/a]*b` denotes the target `a/b` and does not accept it |
| GlobTarget.SafeClassIff | src/anchor_v1/agent_identity.py:722-734 | a class is decided exactly in every pattern if and only if it does not match both the separator and something else |
| GlobLaws.EmptyLaw | src/anchor_v1/agent_identity.py:826-882 | the empty pattern accepts the empty target only |
| GlobLaws.CapsLaw | src/anchor_v1/agent_identity.py:826-848 | nothing is accepted when the pattern has more than 2048 or the target more than 4096 characters |
| GlobLaws.QuestionLaw | src/anchor_v1/agent_identity.py:696-734 | `?` in front of a pattern takes one character other than the separator |
| GlobLaws.LiteralLaw | src/anchor_v1/agent_identity.py:696-734 | a character without a meaning of its own takes itself |
| GlobLaws.UnclosedLaw | src/anchor_v1/agent_identity.py:696-719 | a bracket that is never closed takes itself |
| GlobLaws.ClassLaw | src/anchor_v1/agent_identity.py:649-734 | `[body]` takes one character that the body lists, a closing bracket first in the body being a member; nothing when a range is inverted |
| GlobLaws.NegatedLaw | src/anchor_v1/agent_identity.py:649-734 | `[!body]` takes one character that is neither listed nor the separator |
| GlobLaws.RangeLaw | src/anchor_v1/agent_identity.py:649-667 | `[a-b]` takes the characters between its ends |
| GlobLaws.ListLaw | src/anchor_v1/agent_identity.py:649-667 | a body without ranges takes its characters |
| GlobLaws.StarLaw | src/anchor_v1/agent_identity.py:722-799 | `*` takes any run without a separator, in front of any pattern without ambiguous classes |
| GlobLaws.DoubleStarLaw | src/anchor_v1/agent_identity.py:849-882 | `**` takes anything, in front of any such pattern |
| Base58.Base58Encode | src/anchor_v1/agent_identity.py:115-132 | repeated division by 58 gives a one for each leading zero byte and the digits of the number |
| Base58.ParseNumber | src/anchor_v1/agent_identity.py:135-153 | the accumulating loop gives the number a text stands for, none outside the alphabet |
| Base58.Base58Decode | src/anchor_v1/agent_identity.py:135-153 | the decoder gives a zero byte for each leading one and the bytes of the number, none for the empty text |
| Base58.DecodeEncode | src/anchor_v1/agent_identity.py:115-153 | decoding the encoding of any non-empty bytes gives them back |
| Base58.EncodeDecode | src/anchor_v1/agent_identity.py:115-153 | exactly the non-empty alphabet texts decode, each to bytes that encode to it |
| Base58.DidParses | src/anchor_v1/agent_identity.py:166-201 | the identifier of a 32-byte key parses to that key |
| Base58.ParsedDidIsCanonical | src/anchor_v1/agent_identity.py:176-242 | an identifier that parses is the one built from its key, so the recheck of `resolve_did` never fires |
| Base58.ResolvesExactly | src/anchor_v1/agent_identity.py:217-242 | resolution accepts exactly the identifiers of 32-byte keys, each from one key |
| Base58.ZeroInFront | src/anchor_v1/agent_identity.py:115-132 | a zero byte in front of bytes is a one in front of their text |
| Base58.EncodedSays | src/anchor_v1/agent_identity.py:115-132 | other bytes are written as the digits of their number in base 58, the highest first and not zero, each as the character at its place in the alphabet |
| Base58.DidSays | src/anchor_v1/agent_identity.py:166-242 | the identifier of 32 bytes is `did:key:z` and the base58 of ED 01 and the bytes, none for other lengths, and its document names it and its text |
| CborBijection.ParseSer | src/anchor_v1/cbor.py:86-274 | reading the bytes of any item, with anything behind them, gives the item exactly when it is strict: keys ascend bytewise, depth at most 64 |
| CborBijection.SerParse | src/anchor_v1/cbor.py:139-274 | every accepted byte string is the writing of a strict item: shortest heads, valid UTF-8, ordered keys |
| CborBijection.SerInjective | src/anchor_v1/cbor.py:42-122 | items are never confused: the bytes of one are no prefix of the bytes of another |
| CborOrder.SortAscending | src/anchor_v1/cbor.py:107-117 | sorting entries with different keys puts them in strictly ascending order of length and content |
| CborOrder.AscendingUnique | src/anchor_v1/cbor.py:107-117 | there is one such order, so the bytes do not depend on insertion order |
| CborOrder.HeadMonotone | src/anchor_v1/cbor.py:42-54 | a smaller argument has no longer and bytewise smaller initial bytes |
| CborOrder.OrdersAgree | src/anchor_v1/cbor.py:113-262 | for two keys of one scalar major type, length-first order implies bytewise order |
| CborOrder.OneMajorAscending | src/anchor_v1/cbor.py:251-265 | keys of one scalar major type sorted by the encoder pass the order check of the decoder |
| CborTheorems.ItemizeBack | src/anchor_v1/cbor.py:86-274 | the item a value is written as stands for the same value, dict order aside |
| CborTheorems.LoadsDumps | src/anchor_v1/cbor.py:125-309 | `cbor_loads(cbor_dumps(v))` is `v` if the item written is strict and is refused otherwise |
| CborDeterminism.SameSymmetric | src/anchor_v1/cbor.py:106-117 | sameness up to dict order is symmetric |
| CborDeterminism.SameTransitive | src/anchor_v1/cbor.py:106-117 | and transitive |
| CborDeterminism.EqualBytes | src/anchor_v1/cbor.py:125-129 | two values have the same bytes if and only if they are the same value |
| CborDeterminism.WithinShallow | src/anchor_v1/cbor.py:184-222 | the depth the reader sees is that of the value, a big integer counting as a tag around bytes |
| CborDeterminism.UniformOrdered | src/anchor_v1/cbor.py:106-117 | a value whose dicts have keys of one scalar major type is written with bytewise ascending keys |
| CborDeterminism.UniformRoundTrip | src/anchor_v1/cbor.py:125-309 | such values nested at most 64 deep come back from their bytes |
| CborDeterminism.MixedKeysRefused | src/anchor_v1/cbor.py:113-262 | a dict with the keys 1000 and -1 is written but refused on reading |
| CborCanonical.LoadedIsDumpable | src/anchor_v1/cbor.py:184-274 | whatever is read is a proper value: distinct hashable keys, no raw bignum left |
| CborCanonical.CanonicalBack | src/anchor_v1/cbor.py:86-274 | a canonical item is written back as it was |
| CborCanonical.BackCanonical | src/anchor_v1/cbor.py:86-274 | and only a canonical item is |
| CborCanonical.DumpsLoads | src/anchor_v1/cbor.py:125-309 | accepted bytes are what the encoder writes for their value if and only if their item is canonical |
| CborCanonical.OneCanonicalSpelling | src/anchor_v1/cbor.py:125-309 | accepted canonical bytes of the same value are equal |
| CborFragment.OrdersFitAll | src/anchor_v1/cbor.py:113-262 | for scalar keys, sorted for writing and ascending for reading agree, in both directions, exactly when no key of a smaller major type is longer than one of a larger |
| CborFragment.PlainExactly | src/anchor_v1/cbor.py:86-274 | an accepted item with scalar keys is canonical if and only if its keys fit, none equals another as a truth value, and no integer or simple value has a longer form than it needs |
| CborFragment.PlainDumpsLoads | src/anchor_v1/cbor.py:125-309 | accepted bytes with scalar keys are written back as they were if and only if their item is plain |
| CborFragment.FragmentCanonical | src/anchor_v1/cbor.py:125-309 | accepted items with keys of one major type, no tag 2 or 3 and only true, false and null among simple values are canonical |
| CborFragment.FragmentRoundTrip | src/anchor_v1/cbor.py:125-309 | `cbor_dumps(cbor_loads(b))` is `b` for every accepted b of that fragment |
| CborFragment.ExactRoundTrip | src/anchor_v1/cbor.py:125-309 | a value whose dicts have scalar keys comes back if and only if it is nested at most 64 deep and no key of a smaller major type is longer than one of a larger |
| CborCodec.EncodeHead | src/anchor_v1/cbor.py:42-54 | the shortest head, refused from 2^64 on |
| CborCodec.EncodeInt | src/anchor_v1/cbor.py:57-68 | integers of any size: plain heads below 2^64, tags 2 and 3 with shortest magnitudes above |
| CborCodec.Encode | src/anchor_v1/cbor.py:86-122 | the recursive writer appends exactly the bytes of the value's item, and fails exactly when there is none |
| CborCodec.EncodeItems | src/anchor_v1/cbor.py:102-105 | the list loop appends the bytes of the array, whose format is `CborFormat.ArrayFormat` |
| CborCodec.EncodeKeys | src/anchor_v1/cbor.py:107-112 | each key is written to its own buffer next to its entry |
| CborCodec.EncodeSorted | src/anchor_v1/cbor.py:113-117 | the loop over the sorted entries appends key and value bytes in that order |
| CborCodec.EncodeMap | src/anchor_v1/cbor.py:106-117 | the map branch appends the bytes of the sorted map, whose format is `CborFormat.MapFormat` |
| CborCodec.CborDumps | src/anchor_v1/cbor.py:125-129 | the entry point of the writer returns exactly the bytes of `Dumps`, whose format for each kind of value is said in `CborFormat` |
| CborCodec.Reader.Read | src/anchor_v1/cbor.py:146-151 | the next n bytes, or an error that leaves the position |
| CborCodec.Reader.Argument | src/anchor_v1/cbor.py:153-178 | reads an argument, refusing a form that is not shortest, reserved or cut short |
| CborCodec.Reader.DecodeSimple | src/anchor_v1/cbor.py:225-249 | simple values, the two-byte form only from 32 on |
| CborCodec.Reader.Decode | src/anchor_v1/cbor.py:184-223 | one item: its value, the position behind it, the depth restored; refused exactly when the strict syntax refuses it or it has no value |
| CborCodec.Reader.DecodeArray | src/anchor_v1/cbor.py:205-210 | the loop over items of an array |
| CborCodec.Reader.DecodeEntry | src/anchor_v1/cbor.py:251-265 | one round of the map loop: a key greater than the one before, its value, a hashable key |
| CborCodec.Reader.DecodeMap | src/anchor_v1/cbor.py:251-265 | the loop that fills the dict, keys compared bytewise |
| CborCodec.Reader.DecodeTag | src/anchor_v1/cbor.py:267-274 | tags, with 2 and 3 around bytes turned into integers |
| CborCodec.CborLoads | src/anchor_v1/cbor.py:301-309 | one item and nothing after it, read as `Loads` says; what each major type is read as is said in `CborReading` |
| CborFormat.HeadIff | src/anchor_v1/cbor.py:42-54 | a head is the major type in three bits and the argument in five or in the fewest of 1, 2, 4 or 8 bytes, most significant first |
| CborFormat.FirstByte | src/anchor_v1/cbor.py:86-122 | the high three bits of the first byte written are 0 and 1 for integers, 2 for bytes, 3 for text, 4 for lists, 5 for dicts, 6 for tags and large integers, 7 for the constants |
| CborFormat.IntFormat | src/anchor_v1/cbor.py:57-68 | integers from -2^64 below 2^64 are a head of major type 0 or 1 with the number or its complement |
| CborFormat.BignumFormat | src/anchor_v1/cbor.py:57-68 | other integers are C2 or C3 and the magnitude's bytes without leading zeros behind their head |
| CborFormat.StringFormat | src/anchor_v1/cbor.py:86-101 | bytes and well-formed text are a head of major type 2 or 3 with the length, and the content |
| CborFormat.ConstantFormat | src/anchor_v1/cbor.py:86-122 | false, true and null are F4, F5 and F6; other simple values cannot be written |
| CborFormat.TagFormat | src/anchor_v1/cbor.py:118-122 | a tag is a head of major type 6 with its number, and the value |
| CborFormat.ArrayFormat | src/anchor_v1/cbor.py:102-105 | a list is a head of major type 4 that counts its items, and their bytes one after the other |
| CborFormat.MapFormat | src/anchor_v1/cbor.py:106-117 | a dict is a head of major type 5 that counts its entries, and key and value bytes of all of them, in ascending order of length and content of the keys' bytes |
| CborFormat.MapWritable | src/anchor_v1/cbor.py:106-117 | a dict can be written exactly when every key and value can |
| CborReading.ReadHeads | src/anchor_v1/cbor.py:153-223 | whatever is read starts with a head in shortest form, or is of major type 7 |
| CborReading.ReadScalars | src/anchor_v1/cbor.py:184-204 | heads of major types 0 and 1 are read as integers, those of 2 and 3 with as many bytes behind them as bytes and, when well-formed, as text |
| CborReading.ReadSimple | src/anchor_v1/cbor.py:225-249 | exactly what each byte of major type 7, with anything behind it, is read as |
| CborReading.ReadArray | src/anchor_v1/cbor.py:205-210 | an array is read as the list of what its parts are read as by themselves, as many as its head says |
| CborReading.ReadMap | src/anchor_v1/cbor.py:251-265 | a map is read as the dict filled with what its parts are read as by themselves, keys strictly ascending bytewise and hashable |
| CborReading.ReadTag | src/anchor_v1/cbor.py:267-274 | a tag is read as the tag of its part, except 2 and 3 around bytes without leading zeros, which are integers |
| CborReading.DepthLaw | src/anchor_v1/cbor.py:184-223 | sixty-four nested arrays are read, one more is refused |
| CborReading.OneKeyTwice | src/anchor_v1/cbor.py:251-265 | a truth value and its number are one dict key: the later value stays under the earlier spelling |
| Utf8.ValidIff | src/anchor_v1/cbor.py:196-201 | bytes are well-formed UTF-8 exactly when they are the writing of code points that are no surrogates, each in its shortest form |
| OtsCodec.VarRound | src/anchor_v1/anchored_checkpoints.py:538-565 | a number reads back from its bytes exactly when it fits the digits the reader takes |
| OtsCodec.VarShortest | src/anchor_v1/anchored_checkpoints.py:538-565 | no accepted form of a number is shorter than the one written |
| OtsCodec.VarUintEncode | src/anchor_v1/anchored_checkpoints.py:538-549 | the loop of the writer |
| OtsCodec.VarUintDecode | src/anchor_v1/anchored_checkpoints.py:552-565 | the loop of the reader: value and position, at most ten bytes |
| OtsCodec.AttRound | src/anchor_v1/anchored_checkpoints.py:600-630 | an attestation reads back exactly when its numbers and lengths fit |
| OtsCodec.OpRound | src/anchor_v1/anchored_checkpoints.py:636-709 | an operation reads back exactly when its operand's length fits |
| OtsCodec.NodeRound | src/anchor_v1/anchored_checkpoints.py:662-732 | a tree written in its own order reads back, with messages recomputed, exactly when nesting, lengths and messages are within the limits |
| OtsCodec.SortAttsAscends | src/anchor_v1/anchored_checkpoints.py:592-597 | attestations are written in ascending order of tag |
| OtsCodec.SortEdgesAscends | src/anchor_v1/anchored_checkpoints.py:662-685 | operations are written in ascending order of tag and operand |
| OtsCodec.DecodeEncode | src/anchor_v1/anchored_checkpoints.py:662-732 | any well-formed tree reads back from its bytes as the tree in sorted order, leaving whatever follows, exactly within the limits |
| OtsCodec.DecodeEncodeDecode | src/anchor_v1/anchored_checkpoints.py:662-732 | every accepted string reads as a tree that can be written, and what is written reads as that tree in sorted order; when it is the string that was read is `OtsExact.WriterExactly` |
| OtsCodec.FileRound | src/anchor_v1/anchored_checkpoints.py:735-764 | the file form reads back its digest and tree, and is refused with anything behind it |
| OtsExact.NumberExactly | src/anchor_v1/anchored_checkpoints.py:538-565 | accepted bytes of a number are the ones written if and only if there is one of them or the last is not zero |
| OtsExact.NodeExactly | src/anchor_v1/anchored_checkpoints.py:662-732 | accepted bytes of a node are those of the tree as it stands if and only if all numbers are unpadded and attestations stand before operations in every node |
| OtsExact.SortedInPlace | src/anchor_v1/anchored_checkpoints.py:662-685 | sorting changes nothing if and only if both lists of every node ascend already |
| OtsExact.WriterExactly | src/anchor_v1/anchored_checkpoints.py:662-732 | accepted bytes are what the writer produces for the tree they stand for if and only if numbers are unpadded, attestations stand before operations and both ascend |
| OtsExact.FileExactly | src/anchor_v1/anchored_checkpoints.py:735-764 | the same for the file form, its version number included |
| OtsExact.PaddedFile | src/anchor_v1/anchored_checkpoints.py:747-764 | every tree has a file with the version spelled `81 00` that is accepted and never written |
| OtsFormat.NumberWritten | src/anchor_v1/anchored_checkpoints.py:538-549 | numbers are written in groups of seven bits, lowest first, high bit on all but the last, no last group of zero |
| OtsFormat.NumberRead | src/anchor_v1/anchored_checkpoints.py:552-565 | any such groups, at most as many as allowed, are read as their number |
| OtsFormat.AttestationWritten | src/anchor_v1/anchored_checkpoints.py:600-607 | the eight bytes of each kind's tag, and the payload behind its length |
| OtsFormat.OperationWritten | src/anchor_v1/anchored_checkpoints.py:636-645 | F0, F1 and F7 for append, prepend and SHA-256, with the operand behind its length |
| OtsFormat.NodeWritten | src/anchor_v1/anchored_checkpoints.py:662-685 | a node is its attestations, each behind 00, and its operations, each before the node it leads to, with FF before every one but the last |
| OtsFormat.SortedOrder | src/anchor_v1/anchored_checkpoints.py:592-685 | attestations are written by tag |
| OtsFormat.SortAttsStable | src/anchor_v1/anchored_checkpoints.py:662-685 | and those of one tag in the order they were in |
| OtsFormat.SortedOperations | src/anchor_v1/anchored_checkpoints.py:662-685 | operations are written by tag and operand |
| OtsFormat.SortEdgesStable | src/anchor_v1/anchored_checkpoints.py:662-685 | and equal ones in the order they were in |
| OtsFormat.MessagesRead | src/anchor_v1/anchored_checkpoints.py:648-732 | every message of a tree that is read is that of its parent with the operand behind it, before it, or hashed |
| OtsFormat.DepthLaw | src/anchor_v1/anchored_checkpoints.py:688-732 | sixty-four operations above each other are read, one more is refused |
| OtsFormat.MessageLaw | src/anchor_v1/anchored_checkpoints.py:648-659 | an operation on a message of more than 4194304 bytes is refused |
| OtsFormat.FileWritten | src/anchor_v1/anchored_checkpoints.py:735-744 | the thirty-one bytes of the magic, version 1, the byte 08, the digest and the sorted tree |
| OtsFormat.FileRead | src/anchor_v1/anchored_checkpoints.py:747-764 | a file that is read is the magic, a number that is 1, 08, thirty-two bytes of digest, and a tree over it to the very end |
| OtsStream.EncodeNode | src/anchor_v1/anchored_checkpoints.py:662-685 | the writer of a node sorts, separates all but the last element, and refuses exactly trees with an empty node |
| OtsStream.EncodeAttestations | src/anchor_v1/anchored_checkpoints.py:662-685 | its loop over attestations |
| OtsStream.EncodeEdges | src/anchor_v1/anchored_checkpoints.py:662-685 | its loop over operations |
| OtsStream.VarBytesDecode | src/anchor_v1/anchored_checkpoints.py:572-576 | length-prefixed bytes at a position |
| OtsStream.AttestationDecode | src/anchor_v1/anchored_checkpoints.py:610-630 | an attestation at a position |
| OtsStream.OpDecode | src/anchor_v1/anchored_checkpoints.py:700-709 | an operation at a position |
| OtsStream.DecodeItem | src/anchor_v1/anchored_checkpoints.py:695-713 | one element of a node, put behind those read before |
| OtsStream.DecodeItems | src/anchor_v1/anchored_checkpoints.py:715-732 | the separator loop reads what the grammar says |
| OtsStream.DecodeNode | src/anchor_v1/anchored_checkpoints.py:688-732 | the reader of a node: tree and position, refused beyond 64 levels |
| OtsStream.DecodeFile | src/anchor_v1/anchored_checkpoints.py:747-764 | magic, version, hash tag, digest, tree, nothing after |
| CanonicalNumber.IntRound | rust/verifier/src/canonical_json.rs:51-68 | the text of an integer of any size reads back, whatever non-digit follows |
| CanonicalJson.StrRound | rust/verifier/src/canonical_json.rs:100-125 | the text of a string reads back, so escapes are never ambiguous |
| CanonicalJson.ReadText | rust/verifier/src/canonical_json.rs:40-98 | the text of any value reads back, floats told apart from integers, whatever follows that does not continue a number |
| CanonicalJson.ReadWritten | rust/verifier/src/canonical_json.rs:27-98 | what the writer returned reads back as the value, with nothing left |
| CanonicalJson.EqualBytesEqualValues | rust/verifier/src/canonical_json.rs:27-98 | equal bytes mean equal values, whatever the order keys were given in |
| CanonicalJson.WriteString | rust/verifier/src/canonical_json.rs:100-133 | the character loop appends the quoted, escaped text |
| CanonicalJson.WriteValue | rust/verifier/src/canonical_json.rs:40-98 | appends the text of the value, and fails exactly when it is nested too deep or holds a number beyond the range of floats |
| CanonicalJson.WriteNumber | rust/verifier/src/canonical_json.rs:51-68 | appends digits for an integer and the layout for a float, and refuses exactly a number beyond the range |
| CanonicalJson.WriteItems | rust/verifier/src/canonical_json.rs:70-79 | the loop over array items |
| CanonicalJson.WriteEntries | rust/verifier/src/canonical_json.rs:80-95 | the loop over sorted keys |
| CanonicalJson.SortedKeys | rust/verifier/src/canonical_json.rs:80-84 | keys in strictly ascending order of their bytes, none lost or added |
| CanonicalJson.AscendingIsInOrder | rust/verifier/src/canonical_json.rs:80-84 | there is only one such order |
| CanonicalJson.CanonicalBytes | rust/verifier/src/canonical_json.rs:27-31 | the entry point returns exactly the text |
| JsonFormat.ConstantsWritten | rust/verifier/src/canonical_json.rs:47-68 | `null`, `true` and `false`; a number beyond the floats is refused |
| JsonFormat.IntWritten | rust/verifier/src/canonical_json.rs:51-61 | decimal digits, the lowest last and none in front that is zero, behind a minus for negative numbers |
| JsonFormat.FixedWritten | rust/verifier/src/canonical_json.rs:198-215 | a float whose first digit stands for a power of ten from -4 to 15 is its digits with the point in its place and zeros up to it, `.0` when nothing follows |
| JsonFormat.ScientificWritten | rust/verifier/src/canonical_json.rs:171-197 | any other is the first digit, the rest behind a point, `e`, and the exponent with its sign and at least two digits |
| JsonFormat.StringWritten | rust/verifier/src/canonical_json.rs:100-133 | quotes around the bytes, with the escapes of quote, backslash and the thirty-two control characters |
| JsonFormat.ArrayWritten | rust/verifier/src/canonical_json.rs:70-79 | brackets around the texts of the items, commas between them |
| JsonFormat.ObjectWritten | rust/verifier/src/canonical_json.rs:80-95 | braces around keys, colons and texts, commas between them, the keys in ascending order of their bytes |
| JsonFormat.DepthLaw | rust/verifier/src/canonical_json.rs:21-46 | a hundred and twenty-eight levels are written, one more is refused |
| CanonicalFloat.WriteFloat | rust/verifier/src/canonical_json.rs:146-218 | the branches and padding loops build the layout for every digit string and exponent |
| CanonicalFloat.FloatDenotes | rust/verifier/src/canonical_json.rs:160-215 | in every branch the text denotes the sign and the digits times ten to the exp + 1 - len |
| CanonicalFloat.FloatsDoNot | rust/verifier/src/canonical_json.rs:135-218 | the text of a float never has the syntax of an integer |
| CanonicalFloat.IntsLookLikeInts | rust/verifier/src/canonical_json.rs:51-68 | the text of an integer always has |
| CanonicalFloat.NormalBack | rust/verifier/src/canonical_json.rs:160-215 | the shortest digits and their exponent come back from any decimal that denotes the same number |
| CanonicalFloat.NumberRound | rust/verifier/src/canonical_json.rs:51-218 | the text of a number, integer or float, reads back as that number of that kind, whatever follows that does not continue it |
| Authority.MintAttenuates | src/anchor_v1/authority.py:472-554 | a minted child is no wider than its mandate in digest, expiry, staleness, spend and asset, names it, and cannot mint |
| Authority.MintedVerifies | src/anchor_v1/authority.py:398-554 | a minted child is valid at birth exactly when its lifetime is positive, its staleness not negative and its id and nonce are given |
| Authority.DeadChild | src/anchor_v1/authority.py:472-554 | a mandate mints, for a lifetime of zero or less, a child that is valid at no moment |
| Authority.MessageSplits | src/anchor_v1/authority.py:557-590 | two pairs of id and challenge have one message only if one id starts with the other; for ids of one length the pairs are the same |
| Authority.ProofsConfused | src/anchor_v1/authority.py:557-590 | some proof is valid for two ids if and only if one id starts with the other |
| CapabilityStores.CapabilityStore.SyncRevocations | src/anchor_v1/store.py:275-305 | revocations are added, the epoch counts up, the time of the refresh is set |
| CapabilityStores.CapabilityStore.Revoke | src/anchor_v1/store.py:307-309 | a refresh with one id, which is revoked afterwards |
| CapabilityStores.CapabilityStore.OpenMandate | src/anchor_v1/store.py:321-351 | a fresh mandate with nothing used, refused for negative limits and known ids |
| CapabilityStores.CapabilityStore.TransitionMandate | src/anchor_v1/store.py:363-386 | only legal transitions change a lifecycle |
| CapabilityStores.CapabilityStore.RegisterCapability | src/anchor_v1/store.py:390-427 | a fresh row, refused for known ids and unknown mandates |
| CapabilityStores.CapabilityStore.DebitMandateForChild | src/anchor_v1/store.py:441-490 | the guarded update reserves the child's limit and one action, or changes nothing and says why |
| CapabilityStores.CapabilityStore.ConsumeInner | src/anchor_v1/store.py:571-699 | the checks in their order; the row is burned only when all pass and burning is asked for; when they all pass is said by `StoreUses.UseExactly` |
| CapabilityStores.CapabilityStore.ConsumeCapability | src/anchor_v1/store.py:494-538 | consumption burns the row and records the spend, or changes nothing; it succeeds exactly as `StoreUses.UseExactly` says |
| CapabilityStores.CapabilityStore.CheckCapability | src/anchor_v1/store.py:540-569 | the same checks without burning |
| CapabilityStores.CapabilityStore.Upsert | src/anchor_v1/store.py:752-758 | upserts in any order amount to overriding the planned keys |
| CapabilityStores.CapabilityStore.WriteState | src/anchor_v1/store.py:742-769 | the values are overridden and the version counts up once |
| CapabilityStores.CapabilityStore.ReadState | src/anchor_v1/store.py:714-740 | the values of the keys asked for, null where missing, with the version |
| CapabilityStores.CapabilityStore.CommitStateBound | src/anchor_v1/store.py:771-848 | consumption, recheck and writes happen together or not at all |
| StoreRuns.ReachIsPath | src/anchor_v1/store.py:149-167 | reachability of lifecycles is exactly following legal transitions |
| StoreRuns.RunGrows | src/anchor_v1/store.py:218-848 | along every run rows stay, burned stays burned, revocations, epoch, version and use of budgets only grow |
| StoreRuns.FailureChangesNothing | src/anchor_v1/store.py:218-848 | a failed call of any kind leaves the whole state |
| StoreRuns.OneUse | src/anchor_v1/store.py:494-848 | on every run an id consumed or committed once is refused ever after, for consumption, check and commit |
| StoreRuns.RevocationIsFinal | src/anchor_v1/store.py:275-317 | once an id or its mandate is revoked no later call with it succeeds |
| StoreRuns.RevocationExact | src/anchor_v1/store.py:619-629 | which revocations stop an otherwise good presentation: its id, and its mandate's id unless empty |
| StoreRuns.EmptyMandateSurvives | src/anchor_v1/store.py:619-629 | a run in which a child of the revoked mandate "" is consumed |
| StoreRuns.EpochCounts | src/anchor_v1/store.py:275-305 | the epoch is the number of refreshes |
| StoreRuns.MandateEnds | src/anchor_v1/store.py:149-167 | lifecycles follow legal transitions along every run; an ended mandate stays ended, its usage frozen, and admits no debit and no child |
| StoreRuns.HolderBound | src/anchor_v1/store.py:571-699 | a successful use was proved by the registered holder over this id followed by this challenge, for the registered digest and kind; no other id of that length and no other challenge gives the message |
| StoreRuns.SharedProof | src/anchor_v1/store.py:644-660 | a run in which one proof consumes two capabilities, with ids "ab" and "a" |
| StoreUses.GrantedExactly | src/anchor_v1/store.py:571-699 | a presentation passes exactly when its token is good, the holder signed id and challenge, and the tables allow it: same holder, digest and kind, unburned, the right envelope, neither id nor mandate revoked, a view no older than the staleness bound, an active mandate, a spend within the limit |
| StoreUses.UseExactly | src/anchor_v1/store.py:494-848 | along any run a consumption, check or commit succeeds exactly when the capability was registered before with these fields and neither it nor its mandate was named by a refresh, nothing used it, the last transition made its mandate active, the last refresh is no older than the token bears, the envelope is its own, the spend is within its limit, and for a commit the state is that of its preview |
| StoreUses.UseIsFresh | src/anchor_v1/store.py:275-700 | so every successful use came at most the staleness bound after the last refresh or the start, not after expiry, and for the digest registered |
| StoreUses.UseEffect | src/anchor_v1/store.py:571-848 | what a successful use changes: nothing for a check, the mark and the spend for a consumption, and besides the planned values at the next version for a commit |
| StoreUses.RowOf | src/anchor_v1/store.py:390-427 | every row is that of one earlier registration, whose fields it keeps |
| StoreUses.OneRegistration | src/anchor_v1/store.py:390-427 | no id is registered twice |
| StoreUses.RevokedIff | src/anchor_v1/store.py:275-305 | revoked is exactly what some refresh named |
| StoreUses.ViewTime | src/anchor_v1/store.py:275-305 | the time of the view is that of the last refresh, or of the start |
| StoreUses.UsedUpIff | src/anchor_v1/store.py:494-848 | burned is exactly what was consumed or committed |
| StoreUses.InForceIff | src/anchor_v1/store.py:363-386 | active is exactly a mandate whose last transition made it so |
| StoreLaws.MintExactly | src/anchor_v1/authority.py:472-554 | a child is minted exactly from a good mandate for a limit no higher, the same asset, an end no later and a staleness no greater, and it is this token |
| StoreLaws.DebitExactly | src/anchor_v1/store.py:441-490 | a debit is granted exactly to an active mandate with room for the reservation and one more action, and takes just those |
| StoreLaws.DebitOnRun | src/anchor_v1/store.py:321-490 | along any run, exactly when the mandate was opened, its last transition made it active, and what earlier debits took leaves room within the limits it was opened with |
| StoreLaws.OpenExactly | src/anchor_v1/store.py:321-351 | when a mandate is opened, and its row |
| StoreLaws.TransitionExactly | src/anchor_v1/store.py:149-386 | the eleven legal transitions |
| StoreLaws.RegisterSays | src/anchor_v1/store.py:390-427 | when a capability is registered, and its row |
| StoreLaws.SyncSays | src/anchor_v1/store.py:275-305 | a refresh adds ids, sets the time and counts the epoch, and changes nothing else |
| StoreLaws.WriteSays | src/anchor_v1/store.py:742-769 | a write lays its values over the state at the next version, and is refused when it has none |
| StoreBudget.BooksBalance | src/anchor_v1/store.py:441-490 | on every run that debits before it registers and presents limits no higher than registered, a mandate's use is exactly the limits of its children plus outstanding reservations |
| StoreBudget.ChildrenListed | src/anchor_v1/store.py:390-427 | the children in the table are exactly those registered on the run |
| StoreBudget.ChildrenDistinct | src/anchor_v1/store.py:390-427 | no child is counted twice |
| StoreBudget.BudgetConserved | src/anchor_v1/store.py:441-699 | on such runs spent by children <= their limits <= used <= the mandate's limit, and children <= actions used <= the actions limit |
| StoreBudget.MintedBudgetConserved | src/anchor_v1/authority.py:472-554 | the same for every run whose children are minted from tokens with a spend limit and debited before they are registered, with one payload signed under an id |
| StoreBudget.UnboundedSpends | src/anchor_v1/store.py:676-699 | without a presented limit any spend is granted and no mandate notices |
| StoreBudget.TwinSpends | src/anchor_v1/store.py:602-699 | a second payload with the same id can spend up to its own limit; when the registered limit holds is `RegisteredLimitHolds` |
| StoreBudget.RegisteredLimitHolds | src/anchor_v1/store.py:602-699 | for a presentation in order otherwise no spend above the registered limit is granted if and only if the presented payload has a limit no higher |
| StoreBudget.UndebitedExceeds | src/anchor_v1/store.py:390-427 | a run that registers a child without a debit: the limits of the children exceed the mandate's; the step that does it is told apart by `RegisterExactly` |
| StoreBudget.RegisterExactly | src/anchor_v1/store.py:390-490 | where the books balance, registering a child keeps the limits within the use if and only if its limit is at most what is reserved and not taken up, and the count if and only if some debit is not |
| PrepareCommit.Prepare | src/anchor_v1/state_binding.py:129-179 | a preview binds version, values, keys, writes and expiry of the state it read, and is refused without keys, lifetime or permission |
| PrepareCommit.CommitPreview | src/anchor_v1/state_binding.py:182-255 | an untrusted, expired, refused or foreign preview changes nothing, any other goes to the atomic commit; what success and refusal mean is said by `PreparedRuns.CommitBinds` and `PreparedRuns.CommitExactly` |
| PrepareCommit.VersionCounts | src/anchor_v1/store.py:742-848 | the version is the number of successful writes and commits |
| PrepareCommit.StillSince | src/anchor_v1/store.py:742-848 | two states of a run have the same version if and only if nothing was written between them, and then the same values |
| PrepareCommit.CommitIsAtomic | src/anchor_v1/store.py:771-848 | a commit that succeeds found the whole state of its prepare and left exactly the planned writes at version + 1 |
| PrepareCommit.CommitExact | src/anchor_v1/store.py:771-848 | a prepared commit in order otherwise succeeds if and only if nothing was written since |
| PrepareCommit.OneCommitPerVersion | src/anchor_v1/store.py:771-848 | of all commits prepared on one version at most one succeeds |
| PrepareCommit.Serializable | src/anchor_v1/state_binding.py:129-255 | every run of the store leaves the state of a run in which each commit reads, decides and writes in one piece |
| PreparedRuns.IssuedSays | src/anchor_v1/state_binding.py:129-179 | an issued preview field by field: the action, keys, values and version read, the writes decided, the signer, the end of its lifetime |
| PreparedRuns.CommitBinds | src/anchor_v1/state_binding.py:182-255 | in any run a commit that succeeds was prepared, for the action it commits, by a key it trusts, before the lifetime ended; that action is the one registered for the capability it burns; the policy allowed it and its writes are what is written; the version has not moved |
| PreparedRuns.CommitExactly | src/anchor_v1/state_binding.py:182-255 | a commit of an issued preview succeeds exactly when it is for the action prepared, trusts the signer, is within the lifetime, has a usable capability for that action, writes only keys that were read, and nothing was written since |
| PreparedRuns.StillBetween | src/anchor_v1/state_binding.py:129-255 | between two calls the version stands still exactly when no write and no commit succeeded, and then the state is the same |
| PreparedRuns.Serializable | src/anchor_v1/state_binding.py:129-255 | every run of prepares, commits and other calls leaves what is left when each commit reads, decides on the action committed and writes at one moment |
| MerkleLog.SplitIsLargestPower | src/anchor_v1/scitt.py:258-263 | the cut is the largest power of two below n, section 2.1 of RFC 6962 |
| MerkleLog.SplitLoop | src/anchor_v1/scitt.py:258-263 | the doubling loop computes it |
| MerkleLog.ProofRebuildsRoot | src/anchor_v1/scitt.py:266-314 | for every list and index the audit path leads to the root |
| MerkleLog.RootBindsData | src/anchor_v1/scitt.py:250-272 | lists of any lengths with one root are one list, unless two strings hashed collide |
| MerkleLog.ProofBindsData | src/anchor_v1/scitt.py:288-314 | a proof accepted for a root, with any index and any claimed size, is for an element of the data |
| MerkleLog.ProofUnique | src/anchor_v1/scitt.py:288-314 | two proofs of one root at one index and size are one proof of one element |
| MerkleLog.ProofIsAuditPath | src/anchor_v1/scitt.py:275-314 | with the true size a proof is for the element at its index and is the audit path |
| MerkleLog.PathsPermute | src/anchor_v1/scitt.py:275-285 | the path holds the siblings of section 2.1.1 of RFC 6962, in another order |
| MerkleLog.PathOrder | src/anchor_v1/scitt.py:275-285 | in the order of that section exactly for leaves reached by going right only at the very end |
| MerkleLog.TransparencyLog.Register | src/anchor_v1/scitt.py:507-551 | the statement is appended, the receipt names its hash, place, size, path and root under the log's own name, it verifies under the new root, and every receipt issued before still verifies |
| MerkleLog.TransparencyLog.TreeRoot | src/anchor_v1/scitt.py:502-505 | the root of all statements, none for an empty log |
| MerkleLog.ReceiptBindsStatement | src/anchor_v1/scitt.py:598-633 | a verifying receipt under a log's root is for a statement in that log, even when index, size and path are made up |
| LogLaws.TreeLaw | src/anchor_v1/scitt.py:250-272 | a leaf is hashed behind 00, a node behind 01 from the roots of its parts, the left one as long as the largest power of two below the length |
| LogLaws.PathLaw | src/anchor_v1/scitt.py:275-285 | the path of a leaf is that of its part with the root of the other part behind or before it |
| LogLaws.ProofLaw | src/anchor_v1/scitt.py:288-314 | the root a path leads to, from its last or its first element, none for an index outside the tree or a path of another length |
| LogLaws.ReceiptLaw | src/anchor_v1/scitt.py:598-633 | a receipt verifies exactly when it names the hash of the statement, a trusted log signed it, and its path leads from the statement to the root signed |
| EventMerkle.BuildMerkleRoot | src/anchor_v1/anchored_checkpoints.py:181-193 | the level loop computes the root with repeated last nodes, none for no leaves |
| EventMerkle.NextLevel | src/anchor_v1/anchored_checkpoints.py:181-193 | one round of it |
| EventMerkle.Prove | src/anchor_v1/anchored_checkpoints.py:221-237 | the same loop collects the sibling of each level |
| EventMerkle.FoldRebuildsRoot | src/anchor_v1/anchored_checkpoints.py:181-285 | for every list and index folding the path gives the root |
| EventMerkle.RootBindsLeaves | src/anchor_v1/anchored_checkpoints.py:177-193 | for lists of one length the root determines the leaves, unless two pairs hashed collide; for any lengths see `EventRoots.RootsExactly` |
| EventRoots.RootIsFull | src/anchor_v1/anchored_checkpoints.py:177-193 | the root is that of the tree cut in halves over the list padded, block by block, to full size, and hashes nothing new |
| EventRoots.RootsExactly | src/anchor_v1/anchored_checkpoints.py:177-193 | two lists of any lengths share a root if and only if they pad to the same list, unless pairs collide; where the padded lengths differ no leaf may be the hash of a pair |
| EventRoots.RootBindsDistinct | src/anchor_v1/anchored_checkpoints.py:177-193 | if the longer list has no repeats the root determines the list, whatever the lengths |
| EventRoots.RootBindsEvents | src/anchor_v1/anchored_checkpoints.py:181-193 | lists of different events with one root are one list, unless events or pairs collide |
| EventRoots.RepeatedLastBlock | src/anchor_v1/anchored_checkpoints.py:181-193 | for blocks of any power of two, an odd number of blocks keeps its root when the last is repeated, whatever the hash |
| EventRoots.SixLeaves | src/anchor_v1/anchored_checkpoints.py:181-193 | six leaves and the eight that repeat the last two share a root |
| LogLaws.LevelLaw | src/anchor_v1/anchored_checkpoints.py:177-199 | each level hashes neighbours left before right, and a last one without a neighbour with itself |
| LogLaws.SmallTrees | src/anchor_v1/anchored_checkpoints.py:177-199 | the roots of one, two and three leaves |
| EventMerkle.FoldStartsAtEvent | src/anchor_v1/anchored_checkpoints.py:265-285 | a path from an event hash to a node of any level started at an event of the log |
| EventMerkle.ProveEvent | src/anchor_v1/anchored_checkpoints.py:240-262 | a proof is given exactly for events of the sealed slice, carries the event's place and path, and verifies |
| EventInclusions.PlaceOfProof | src/anchor_v1/anchored_checkpoints.py:221-237 | the directions of the path made for an index spell that index |
| EventInclusions.FoldAtPlace | src/anchor_v1/anchored_checkpoints.py:265-285 | a path from a leaf to the root of a full tree has the height of the tree, and its directions name the leaf's place |
| EventInclusions.InclusionBindsPlace | src/anchor_v1/anchored_checkpoints.py:265-285 | an accepted inclusion path, of whatever length it came, has the height of the padded tree and is for the event at the place its directions spell, collisions aside |
| EventInclusions.IndexExactly | src/anchor_v1/anchored_checkpoints.py:204-285 | for different events the index of an accepted proof is right if and only if it is the one that stands at the place of the directions |
| EventInclusions.WrongIndexAccepted | src/anchor_v1/anchored_checkpoints.py:204-285 | every accepted proof is accepted with a wrong index of the list too |
| LogLaws.FoldLaw | src/anchor_v1/anchored_checkpoints.py:265-285 | folding joins each sibling on the side its step says |
| LogLaws.InclusionExactly | src/anchor_v1/anchored_checkpoints.py:265-285 | an inclusion proof is accepted exactly when it has the event's hash and the number of leaves and folds to the root |
| EventMerkle.EvidenceLog.Append | src/anchor_v1/anchored_checkpoints.py:123-140 | the event is appended with the next sequence and the hash of the last, keeping the chain |
| EventMerkle.EvidenceLog.VerifyHashChain | src/anchor_v1/anchored_checkpoints.py:160-169 | the loop decides whether sequences and hashes link |
| EventMerkle.HeadBindsHistory | src/anchor_v1/anchored_checkpoints.py:109-169 | the last event of a chained log determines the whole log |
| LogLaws.ChainedExactly | src/anchor_v1/anchored_checkpoints.py:160-174 | a log is chained exactly when sequences count from zero and each event but the first has the hash of the one before |
| LogLaws.ContiguousExactly | src/anchor_v1/anchored_checkpoints.py:1066-1117 | a slice is whole exactly when consecutive events count up and link |
| CheckpointChains.VerifyChain | src/anchor_v1/anchored_checkpoints.py:1150-1216 | the verifying loop decides acceptance, with rotations and the registry replayed |
| CheckpointChains.AcceptedExactly | src/anchor_v1/anchored_checkpoints.py:1150-1216 | accepted if and only if each checkpoint is signed by the signer in force, well ranged, anchored, and links to the one before |
| LogLaws.AcceptedSays | src/anchor_v1/anchored_checkpoints.py:1150-1216 | a chain is accepted exactly when it is not empty and every checkpoint is signed by the key of the signer declared last, under its id, anchored, not inverted, names the root before it, starts behind the end before it and is no older |
| LogLaws.InForceIsLast | src/anchor_v1/anchored_checkpoints.py:1150-1216 | the signer in force is the one declared last, the first one when none was |
| LogLaws.SealableExactly | src/anchor_v1/anchored_checkpoints.py:1066-1300 | a slice can be sealed exactly when it is not empty, counts up and links, starts where the last one ended or at zero, is no older, and the key in force is at hand and the anchor agrees |
| LogLaws.CandidateSays | src/anchor_v1/anchored_checkpoints.py:1066-1117 | a sealed checkpoint has the range of its slice, the root over its events' hashes, the root before it, the time and the next signer |
| CheckpointChains.PrefixAccepted | src/anchor_v1/anchored_checkpoints.py:1150-1216 | every non-empty prefix of an accepted chain is accepted, so rotations act only later |
| CheckpointChains.WalkInForce | src/anchor_v1/anchored_checkpoints.py:1150-1216 | the replayed key is the last one declared, even when a rotation re-declares an id |
| CheckpointChains.RangesAscend | src/anchor_v1/anchored_checkpoints.py:1150-1216 | ranges of an accepted chain are disjoint and ascend with time |
| CheckpointChains.RangesTile | src/anchor_v1/anchored_checkpoints.py:1150-1216 | every sequence between the first start and the last end lies in exactly one checkpoint |
| CheckpointChains.SealedCoversAll | src/anchor_v1/anchored_checkpoints.py:1219-1307 | a sealed chain covers exactly the events up to its head's end |
| CheckpointChains.CheckpointChain.Seal | src/anchor_v1/anchored_checkpoints.py:1255-1300 | a seal succeeds if and only if the active key is registered and in force, the slice is whole and starts where the last ended, time does not run back and the anchor agrees; it then appends exactly that checkpoint and keeps the chain acceptable; a refusal changes nothing |
| CheckpointChains.CandidateFollows | src/anchor_v1/anchored_checkpoints.py:1293-1297 | the admission check of a fresh checkpoint amounts to those conditions |
| CheckpointChains.SliceBound | src/anchor_v1/anchored_checkpoints.py:1066-1116 | two contiguous slices with one root are one slice, whatever their lengths |
| CheckpointChains.PreviousSliceBound | src/anchor_v1/anchored_checkpoints.py:1150-1216 | two accepted chains with one head have one slice before it, collisions aside |
| CheckpointChains.HeadForgets | src/anchor_v1/anchored_checkpoints.py:1150-1216 | two accepted chains of three with one head and different first roots |
| CheckpointChains.HeadBindsLog | src/anchor_v1/anchored_checkpoints.py:109-193 | a root over the end of a chained log determines the whole log, collisions aside |
| CheckpointChains.LateStart | src/anchor_v1/anchored_checkpoints.py:1150-1216 | a first checkpoint that starts anywhere is accepted |
| CheckpointChains.CheckpointChain.Verify | src/anchor_v1/anchored_checkpoints.py:1302-1307 | every non-empty chain grown by sealing verifies |
| StepUpQuorum.Exclusive | src/anchor_v1/stepup.py:125-189 | two quorums hold one challenge only if one of them is abandoned; no two live ones do and no two finalized ones |
| StepUpQuorum.LiveNotBurned | src/anchor_v1/stepup.py:125-189 | no live quorum holds a burned challenge, and each live bound one holds its claim |
| StepUpQuorum.OpenKeeps | src/anchor_v1/stepup.py:664-715 | a new quorum keeps the invariant of all quorums and registries |
| StepUpQuorum.ApproveKeeps | src/anchor_v1/stepup.py:737-812 | so does an approval |
| StepUpQuorum.AbandonKeeps | src/anchor_v1/stepup.py:826-843 | so does abandoning |
| StepUpQuorum.FinalizeKeeps | src/anchor_v1/stepup.py:847-887 | so does finalizing, so that no two records are for one challenge |
| StepUpQuorum.Registry.Open | src/anchor_v1/stepup.py:698-715 | opens a quorum exactly for 1 <= m <= n |
| StepUpQuorum.QuorumApproval.Refuses | src/anchor_v1/stepup.py:754-807 | the refusals of an approval, made one after the other, amount to one condition |
| StepUpQuorum.QuorumApproval.Approve | src/anchor_v1/stepup.py:737-812 | an admissible approval is recorded and its challenge claimed; any other changes nothing |
| StepUpQuorum.QuorumApproval.IsSatisfied | src/anchor_v1/stepup.py:814-824 | satisfied exactly with m approvals and not abandoned |
| StepUpQuorum.QuorumApproval.Abandon | src/anchor_v1/stepup.py:826-843 | releases the claim, unless finalized |
| StepUpQuorum.QuorumApproval.Finalize | src/anchor_v1/stepup.py:847-887 | signs, burns and seals exactly when satisfied and not sealed, or changes nothing |
| ReplayWindow.NonceGuard.Prune | src/anchor_v1/acs_guardian.py:766-775 | drops exactly the nonces older than two windows |
| ReplayWindow.NonceGuard.Admit | src/anchor_v1/acs_guardian.py:777-817 | lets a frame in exactly within the window and with an unknown nonce, and remembers it |
| ReplayWindow.Remembered | src/anchor_v1/acs_guardian.py:761-817 | a frame let in is remembered until some reading two windows past its time |
| ReplayWindow.MemoryIsRecent | src/anchor_v1/acs_guardian.py:766-817 | after each check nothing older than two windows is remembered |
| ReplayWindow.NoReplay | src/anchor_v1/acs_guardian.py:761-817 | no frame is let in twice while the clock never steps back by more than the window |
| ReplayWindow.ReplayNeedsJump | src/anchor_v1/acs_guardian.py:761-817 | a replay needs the clock to jump up and back between the two times |
| ReplayWindow.JumpReplays | src/anchor_v1/acs_guardian.py:761-817 | and on every clock with such a jump some frame is let in twice |
| ReplayWindow.ReplayExactly | src/anchor_v1/acs_guardian.py:761-817 | replays are possible exactly on clocks that jump |
| ReplayWindow.AcceptedExactly | src/anchor_v1/acs_guardian.py:766-817 | a frame is let in exactly when it is within the window of the clock and every frame let in before under its nonce is two windows behind this reading, or behind one since at which a frame was within the window |
| DelegationChains.SubPrefixIsWithin | src/anchor_v1/delegation_chains.py:52-66 | comparing segments is the same as being the parent or extending it behind a slash |
| DelegationChains.SubPrefixTransitive | src/anchor_v1/delegation_chains.py:52-66 | prefixes narrow transitively |
| DelegationChains.NarrowerTransitive | src/anchor_v1/delegation_chains.py:69-88 | so do scopes |
| DelegationChains.NarrowerAllowsLess | src/anchor_v1/delegation_chains.py:69-343 | a narrower scope allows no action on any resource that the wider one does not |
| DelegationChains.CheckPlace | src/anchor_v1/delegation_chains.py:400-479 | the checks of one receipt amount to the condition for its place |
| DelegationChains.VerifyChain | src/anchor_v1/delegation_chains.py:346-493 | the loop over receipts accepts exactly the verifying chains and returns the leaf's scope, depth and hash, all hashes and holders, and the root's mandate and constitution |
| DelegationChains.AncestorsBound | src/anchor_v1/delegation_chains.py:346-493 | in an accepted chain every receipt is within every earlier one: scope, window, depth limit, mandate, constitution |
| DelegationChains.AuthorityOnlyNarrows | src/anchor_v1/delegation_chains.py:326-493 | what the leaf allows every ancestor allows, caveats are kept, and the chain is no longer than the root's depth limit plus one |
| DelegationChains.LeafBindsChain | src/anchor_v1/delegation_chains.py:346-493 | two accepted chains with one leaf are one chain, unless hashes collide |
| DelegationChains.MintedVerifies | src/anchor_v1/delegation_chains.py:157-493 | a chain built by issuing and delegating verifies in its leaf's window exactly when ids and hashes differ and no depth exceeds its own limit |
| DelegationChains.LowLimitMints | src/anchor_v1/delegation_chains.py:230-295 | delegating with a depth limit of zero mints a receipt no verifier accepts |
| DelegationLaws.BehindIff | src/anchor_v1/delegation_chains.py:52-66 | covered is what is the prefix or lies behind it and a slash, and everything by the empty prefix |
| DelegationLaws.AllowsExactly | src/anchor_v1/delegation_chains.py:326-343 | a scope allows exactly its actions on what lies behind one of its prefixes |
| DelegationLaws.WithinScopeIff | src/anchor_v1/delegation_chains.py:69-88 | narrower is no action more, every prefix behind one of the parent's, and no caveat less |
| DelegationLaws.VerifiesExactly | src/anchor_v1/delegation_chains.py:346-493 | a chain verifies exactly when every receipt is signed by the key registered for its id and in its window, none repeats, the first is an authority's root receipt, and every other is signed and delegated by the holder before, names that receipt by hash, is one deeper and wider in nothing |
| DelegationLaws.DelegateExactly | src/anchor_v1/delegation_chains.py:230-295 | a hop is minted exactly by the holder, within scope and window, below the depth limit, and it is this receipt |
| DelegationLaws.IssueExactly | src/anchor_v1/delegation_chains.py:157-227 | a root receipt is minted exactly for a window that is not empty and a limit that is not negative, and it is this receipt |
| AttenuatedTokens.SubsumedHolds | src/anchor_v1/attenuated_tokens.py:466-505 | a caveat that passes the check and holds makes the parent's hold, unless exactly one of two `uses` limits is one |
| AttenuatedTokens.SubsumptionIsSemantic | src/anchor_v1/attenuated_tokens.py:177-505 | for caveats with any parameters the check implies the parent's holding in every situation if and only if not exactly one of two `uses` limits is one |
| AttenuatedTokens.MintedSemantic | src/anchor_v1/attenuated_tokens.py:177-505 | among caveats that minting lets through, exactly outside a single use under a limit of several |
| AttenuatedTokens.SubsumedTransitive | src/anchor_v1/attenuated_tokens.py:466-505 | the check is transitive |
| AttenuatedTokens.CaveatsKeptTransitive | src/anchor_v1/attenuated_tokens.py:508-537 | so is keeping caveats |
| AttenuatedTokens.SubsumesTransitive | src/anchor_v1/attenuated_tokens.py:508-537 | so is the comparison of tokens |
| AttenuatedTokens.ChainNarrows | src/anchor_v1/attenuated_tokens.py:552-678 | in an accepted chain of at most nine tokens each is within every ancestor and satisfies the request; what acceptance takes of each token, its signature and its proof of possession is said by `TokenChains.AcceptedExactly` |
| AttenuatedTokens.ParentsAreNamed | src/anchor_v1/attenuated_tokens.py:552-678 | in an accepted chain every token names the next by its hash if and only if every link followed is honest: taken from the given parent, or from an entry under its own hash |
| AttenuatedTokens.WrongEntryAccepted | src/anchor_v1/attenuated_tokens.py:552-678 | a chain through an entry under another hash is accepted, and its tokens do not name each other |
| AttenuatedTokens.AttenuateExactly | src/anchor_v1/attenuated_tokens.py:391-458 | past the other guards, attenuation succeeds exactly when the parent has no two different caveats of one kind and each new caveat is no weaker than the parent's of its kind |
| AttenuatedTokens.TwoExpiries | src/anchor_v1/attenuated_tokens.py:391-458 | a token that expires at 10 and at 20 is refused even when nothing is added |
| TokenChains.AcceptedExactly | src/anchor_v1/attenuated_tokens.py:552-678 | a token is accepted exactly when there is a chain of at most nine from it to a root, each signed by the key trusted for its issuer in the current version, for the audience, time and invocation, with caveats that hold, presented with a proof over its id and nonce by the key of its subject, the one handed over for the leaf and the one on file for an ancestor, each parent supplied under the hash named, and each within the next field by field |
| TokenChains.PresentableIff | src/anchor_v1/attenuated_tokens.py:552-678 | the checks of one token, field by field |
| TokenChains.CaveatMeaning | src/anchor_v1/attenuated_tokens.py:177-463 | when each kind of caveat holds, in terms of the invocation |
| TokenChains.TighterExactly | src/anchor_v1/attenuated_tokens.py:466-505 | for expiries, prefixes and spend limits the check is exactly that whatever the child's caveat allows the parent's allows |
| TokenChains.OtherTighter | src/anchor_v1/attenuated_tokens.py:466-505 | counts are compared as numbers, lists as sets, other kinds must be equal |
| TokenChains.NarrowerUrlRefused | src/anchor_v1/attenuated_tokens.py:466-505 | a url below an allowed one is refused as narrower although it allows nothing more |
| TokenChains.NarrowedIff | src/anchor_v1/attenuated_tokens.py:508-537 | within the parent is: same action, audience, parameters and constitution, a resource under the parent's, a window inside, and every caveat of the parent kept in kind and tightened |
| TokenChains.MintRules | src/anchor_v1/attenuated_tokens.py:177-260 | what minting asks of each kind of caveat |
| TokenChains.AttenuatedSays | src/anchor_v1/attenuated_tokens.py:391-458 | a child names its parent by hash, carries its caveats before the new ones, and can change only holder, resource, window, id and nonce, the window only inwards |
| ConstitutionChains.VerifyQuorum | src/anchor_v1/multisig_constitution.py:307-332 | the counting loop accepts exactly clean, distinct, sufficient signatures of the active set |
| ConstitutionChains.ConstitutionalChain.TrustActiveForNext | src/anchor_v1/multisig_constitution.py:244-250 | the scan finds the last proposed set, the bootstrap if none |
| ConstitutionChains.ConstitutionalChain.Append | src/anchor_v1/multisig_constitution.py:252-304 | exactly admissible versions are appended and indexed; a refusal changes nothing |
| ConstitutionChains.ConstitutionalChain.Governed | src/anchor_v1/multisig_constitution.py:261-263 | looks a hash up among the versions |
| ConstitutionChains.ResolveGovernedVersion | src/anchor_v1/multisig_constitution.py:335-354 | rebuilding from untrusted parts succeeds exactly for legitimate ones, and then finds the hash |
| ConstitutionChains.RebuildAgrees | src/anchor_v1/multisig_constitution.py:261-354 | rebuilding any reachable chain succeeds and resolves every hash as the chain itself does |
| ConstitutionChains.PrefixLegitimate | src/anchor_v1/multisig_constitution.py:265-332 | later versions and rotations change nothing before them |
| ConstitutionChains.LegitimateExactly | src/anchor_v1/multisig_constitution.py:244-354 | a chain is legitimate exactly when versions count from one, each names the hash of the one before, no hash repeats, and each has at least the quorum of signatures over its hash, by the keys of different members of the set proposed last before it |
| ConstitutionChains.LookupPins | src/anchor_v1/multisig_constitution.py:261-304 | in a legitimate chain a hash pins one version, and the index finds it |
| ConstitutionChains.EveryVersionHadQuorum | src/anchor_v1/multisig_constitution.py:244-332 | each version was signed under at least the quorum of different key ids of the set in force before it |
| ConstitutionChains.DifferentKeysExactly | src/anchor_v1/multisig_constitution.py:82-332 | whatever the quorum check accepts has as many public keys as signatures if and only if no key of the set stands under two ids |
| ConstitutionChains.OneKeyQuorum | src/anchor_v1/multisig_constitution.py:82-332 | one key under two ids meets a quorum of two: an admitted genesis version |
| ConstitutionChains.EveryVersionHadKeys | src/anchor_v1/multisig_constitution.py:244-332 | where the keys in force differ each version was signed with at least the quorum of different keys of that set |
| ConstitutionChains.HeadBindsHistory | src/anchor_v1/multisig_constitution.py:214-354 | the head's content hash determines the whole history of constitutions |

## Left out

Contracts that say less than they might:

- CborTheorems.LoadsDumps: values with a hand-made tag 2 or 3 around bytes are excluded, since those spell an integer; `CborCanonical.TwoSpellings` shows what happens to them.
- CborDeterminism.EqualBytes: the same exclusion, and the values are those a Python program can hold (distinct hashable dict keys, text with a UTF-8 form).
- CborCodec.Encode: values have no floats, so the branch for them is absent; on an error nothing is promised about the bytes already appended, which the source throws away.
- CborCodec.CborDumps: values have no floats.
- CborCodec.Reader.DecodeSimple: refuses the three float forms, additional information 25 to 27, which the source reads in any width, shortest or not.
- CborCodec.Reader.Decode: refuses items that contain floats.
- CborCodec.CborLoads: refuses inputs that contain floats.
- CanonicalJson.WriteValue: the same on an error; the source throws the buffer away. A number is given as what the source sees in it: an integer, the shortest digits of a float, or a number it has no float for.
- CanonicalFloat.WriteFloat: takes sign, shortest digits and exponent as given by the float formatter; that those digits denote the double nearest to the original is the formatter's business. Zero is the digit 0 with exponent 0.
- MerkleLog.PathOrder: that the path is not the one of section 2.1.1 of RFC 6962 is stated for paths without repeated siblings; equal siblings can be exchanged unseen.
- StepUpQuorum.QuorumApproval.IsSatisfied: requires a sound quorum, which every registered quorum is; the agreement check of the source is never in question there.
- StepUpQuorum.QuorumApproval.Approve: the outcome of verifying the assertion (who approved, whether the digest is bound) is a parameter.
- StoreBudget.BudgetConserved: for runs in which children are registered with a limit after a debit of that limit and consumed under payloads with limits no higher than registered. `UndebitedExceeds` shows what happens without the debit, `UnboundedSpends` and `TwinSpends` what happens with no or a higher presented limit; without the registered limit there is nothing to compare.
- PrepareCommit.Serializable: the policy is a function of the values and the action, and previews are those of earlier prepares, which the signature check stands for.
- MerkleLog.TransparencyLog.Register: parsing, the issuer check and the registration policy are one parameter.
- ConstitutionChains.ConstitutionalChain.Append: the model's chain starts empty and admits the genesis version by the same method that the constructor of the source calls.
- AttenuatedTokens.ChainNarrows: caveat parameters have the JSON types their mint-time checks ask for, though any values, and lists are sets; request contexts hold the six entries the caveats look at; amounts are reals, so NaN is not among them; caveats of unknown kinds never hold.

Not modelled:

- Cryptography: Ed25519, ECDSA, HMAC, X.509 and COSE structures. A signature names its true signer; a hash is any function.
- CBOR floating point, as said above. Dict keys that equal each other across int and float are therefore not modelled either.
- Python's recursion limit and memory; Dafny characters stand for code points, lone surrogates aside.
- The SQLite driver: tables are maps, a transaction is one atomic step, integers have no width. JSON documents and digests of the store are abstract, a view of some keys standing for its digest.
- Shape checks of digests and keys, read caveats, read capabilities' evidence, and all text of error messages.
- The OpenTimestamps calendar and Bitcoin headers: an anchor is a predicate on checkpoints.
- Authenticators, WebAuthn sign counters, and interleavings inside one call: each call is one step.
- The guardian's frames as bytes, its hooks and timeouts: frames are authenticated nonce and time.
- `governance_check` with its name patterns, receipts of actions, and the adjudication of receipts.
- `assertion` issue and verification, `AgentRegistry` and the rest of `agent_identity.py` around the matcher: guards over the parts modelled here.
- `mcp_gateway.py`, `planes.py`, `a2a.py`, `provenance.py`, `shadow_mode.py`, `policy_providers.py`, `pep.py`, `identity_adapters.py`: guard sequences over the parts modelled here, or library semantics.
- The Rust verifier apart from canonical JSON: it mirrors code modelled from Python.
