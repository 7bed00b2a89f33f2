# What MINK's core algorithms do, and why they work

Dafny models of four parts of the MINK repository, with proofs of what they promise:

- **The BER codec** of `src/asn1/asn1.cpp` (files `Ber*.dfy`). A message is a tree of nodes whose
  lengths are kept up to date as nodes are linked and unlinked; the encoder trusts the stored
  lengths. The decoders read any length form of ITU-T X.690 (sections 8.1.2, 8.1.3 and 8.1.5),
  with or without a definition to match against, drawing nodes from round-robin pools.
- **The configuration tree** of `src/cfg/mink_config.cpp`, its parser (`src/cfg/minkParser.c`) and
  tree builder (`src/cfg/antlr_utils.cpp`) (files `Config*.dfy`). The tree holds two
  configurations at once: what is in force and what is pending.
- **The distribution of changes** in `src/cfg/config_gdt.cpp` (`ConfigStream.dfy`,
  `ConfigEvents.dfy`, `ConfigUpdate.dfy`): a stream with one change in a packet, and the update
  of a daemon's tree, of which every handler concerned is told.
- **The expression parser** of `src/codegen/inja.hpp` (files `Inja*.dfy`): two stacks, operator
  precedences, nested calls.

Where the program updates fields and buffers, the model is a class or a method over an array
whose contract equates the new state with a specification function of the old one; the
properties are lemmas about those functions.

## How the files fit together

| files | content |
|---|---|
| `BerOctets`, `BerTlv` | identifier and length octets; trees of TLVs in any length form |
| `BerDecode`, `BerHollow`, `BerErrors`, `BerWire` | the decoder without a definition as functions, what it reads as meant, what it says to messages cut off, and its loops over buffers |
| `BerLengths`, `BerMessage`, `BerNode` | the length bookkeeping on snapshots, the message a tree stands for, the nodes themselves |
| `BerSchema`, `BerSchemaRoundTrip`, `BerSetOrder`, `BerExtra`, `BerSchemaDecode`, `BerPool` | matching TLVs against a definition, SETs in any order, TLVs the definition has no place for, reading with a definition, the pools |
| `BerReencode`, `BerInstance`, `BerDecoded` | encoding decoded nodes again, a tree in memory as a message with its definition, decoded nodes as a tree in memory |
| `ConfigTree`, `ConfigMerge`, `ConfigShape`, `ConfigChanges` | the tree's two readings, every operation on it, and what commit counts |
| `ConfigValidate`, `ConfigByName`, `ConfigHidden`, `ConfigStopped`, `ConfigAnnounce`, `ConfigContents`, `ConfigReplace`, `ConfigQuiet`, `ConfigSort`, `ConfigOrder`, `ConfigHistory` | when a merge succeeds, what it comes to if it stops half way, what it leaves in force, what it makes pending, when it replaces everything, what loading does to names, sorting and the order it leaves, and any run of operations |
| `ConfigItem` | the tree in memory, with parent pointers |
| `ConfigBuffer`, `ConfigText`, `ConfigLines`, `ConfigCommands` | the printer that rewinds and a reader of its text, the line counters, the commands printed and what executing them brings about |
| `ConfigSave`, `ConfigParser`, `ConfigLoad`, `ConfigPending` | saving to a file, parsing it, loading it, all that with uncommitted changes |
| `ConfigStream`, `ConfigEvents`, `ConfigUpdate` | the distribution of changes |
| `InjaMachine`, `InjaSyntax`, `InjaProof`, `InjaRoundTrip`, `InjaGrammar`, `InjaErrors`, `InjaParser` | the parser's steps, written expressions, what parsing keeps, what it builds, the grammar it follows, what it refuses, the loops |

## Where the program does not do what one might expect

Each of these is stated with the exact condition under which things are as expected; where that
condition is exact only in part, the point says so.

- Tags above 127 do not survive encoding: the encoder shifts by eight bits where the decoder
  shifts by seven (`BerOctets.TagRoundTrip`, `BerDecode.BerRoundTrip`).
- An indefinite node without contents is read as such on a level of definite length, unless
  something that looks like an end-of-contents mark follows there; inside an indefinite level it
  makes the level misread, because its mark is taken for an element and the marks behind it for
  the wrong ones (`BerHollow.ReadsExactly`, `BerHollow.EmptyIndefiniteMisread`). Where a level
  has two such nodes the scan of the second, whose result is not used, may leave the buffer
  (`BerHollow.TwoHollows`); whether it does is not characterised, so for such messages the
  condition is exact only as long as the decoder reads nothing beyond the buffer.
- Encoding decoded nodes again gives the octets they came from exactly if no length was
  indefinite and none below 128 was in the long form: the encoder keeps the octet count it
  decoded, but writes a short length in one octet (`BerReencode.ReencodesExactly`).
- A constructed node's stored length is the size of its children exactly if the alternatives
  selected by CHOICEs among them have one-octet tags (`BerLengths.LengthCountsChildren`). A new
  session on a used tree starts right exactly if every node that a parent counts is out of the
  old one, or is a CHOICE whose selection was unlinked and has a one-octet tag
  (`BerLengths.NextSession`). In a decoded tree lengths are right exactly if every length came in
  the fewest octets and only a root's was indefinite (`BerDecoded.DecodedIsRight`).
- A TLV behind the last one its definition has a place for is not looked at, but the contents of
  a constructed one are assigned to the node found last (`BerExtra.ExtraGoesToLast`).
- A comma in a call does not apply pending operators, so an operator of one argument may take its
  operand from the next (`InjaRoundTrip.ParsesExactly`, `InjaGrammar.GrammarIsParsed`).
- A merge that only announces values puts a new block in force exactly if the contents list it
  twice before the merge stops, if it does. This holds for merges that succeed or stop half way,
  in a tree as it is or after `replace_prepare` (`ConfigAnnounce.AnnouncingKeepsForce`,
  `ConfigHistory.AnnounceAndDiscard`, `ConfigAnnounce.ListedTwice`,
  `ConfigAnnounce.StoppedBeforeOrAfter`). A commit that only pretends puts new blocks in force
  too (`ConfigTree.PretendKeepsForce`). A merge that does not announce makes a second block of a
  name exactly if, before it stops, one is there or is listed twice
  (`ConfigQuiet.QuietKeepsNames`).
- An item in force whose value is about to become empty without being deleted is missing from
  the file that keeps the configuration in force, so loading that file loses it
  (`ConfigLoad.LoadsExactly`, `ConfigLoad.SetToNothing`). A list with anything to show besides
  its name makes a saved file unreadable; otherwise the file is read as it was saved exactly if no
  name has a sort mark, no value holds a quote and no item has the word CONST for its value, which
  would make it a block (`ConfigSave.FileRoundTrip`, `ConfigSave.ConstComesBackAsBlock`).
- `get_config_lc` counts blocks that hold nothing but deleted items without a text, which are not
  shown, and of a list only its name, though what is in it is shown (`ConfigLines.CountsLines`).
- `sort` goes through the siblings while it sorts them: the block that comes first afterwards is
  not sorted inside unless it stood first before (`ConfigOrder.SortsLevelInside`,
  `ConfigOrder.SortsDeep`, `ConfigOrder.PassedOver`).
- The commands printed for a block called like the root leave out what is above it
  (`ConfigCommands.PrintsExactly`). Executed on the configuration in force, the commands bring
  about what is pending exactly if no item is about to lose its value without being deleted
  (`ConfigCommands.CommandsUpdate`).
- The header of `replace_prepare` announces a complete replacement. The code marks a block made
  from a template as deleted but nothing inside it, so a block the new contents list again keeps
  what they do not mention (`ConfigReplace.ReplacesExactly`, `ConfigHistory.ListedAgainKeepsInside`).
  The model follows the code.
- After an update is applied, a block that had to be made on the way to something listed stays
  marked as new unless it is listed itself (`ConfigEvents.NoneLeftNew`, `ConfigEvents.BlockLeftNew`).

## Model

| member | source | states |
|---|---|---|
| BerOctets.OctetCountIsMinimal | src/asn1/asn1.cpp:1281-1297 | the octet count prepare_length predicts is the least in which the length can be written |
| BerOctets.OctetCountBound | src/asn1/asn1.cpp:1281-1297 | a length written in k octets needs at most k |
| BerOctets.LengthRoundTrip | src/asn1/asn1.cpp:835-870 | decode_length reads back what encode_prepared_length writes for every length up to 2^31-2, with the predicted octet count and form |
| BerOctets.LongLengthRoundTrip | src/asn1/asn1.cpp:839-853 | the long form with any sufficient number of octets up to 126 is read as the same length |
| BerOctets.TagShapeRoundTrip | src/asn1/asn1.cpp:872-908 | class, complexity and the number of identifier octets are read back for every tag |
| BerOctets.TagRoundTrip | src/asn1/asn1.cpp:1253-1279 | the tag number is read back exactly if it is at most 127 |
| BerOctets.ReadBackExact | src/asn1/asn1.cpp:891-902 | a tag of more than one septet is read as another number exactly if it is above 127 |
| BerOctets.StandardOctets | src/asn1/asn1.cpp:1253-1318 | classes, short and long identifiers and lengths are the octets ITU-T X.690 gives |
| BerTlv.RereadIsIdentity | src/asn1/asn1.cpp:872-908 | a tree is read back as itself exactly if all its tags are small |
| BerTlv.DefiniteBytes | src/asn1/asn1.cpp:1618-1698 | choosing the encoder's length form everywhere gives the encoder's octets |
| BerDecode.ElementEnds | src/asn1/asn1.cpp:803-833 | one element, in any length form and nesting, is skipped to its end by the end-of-contents scan |
| BerDecode.ScanEnds | src/asn1/asn1.cpp:803-833 | find_eoc returns exactly the length of the contents before the mark that closes them, whatever is nested in them |
| BerDecode.LengthRead | src/asn1/asn1.cpp:835-870 | the length decode_length finds is that of the contents, in the definite and the indefinite form |
| BerDecode.HollowScan | src/asn1/asn1.cpp:803-833 | a scan that meets an empty indefinite node never returns the end of its own level, if the level's mark is in view |
| BerDecode.HeaderFirst | src/asn1/asn1.cpp:1163-1187 | the header of every element of a definite level is read as it is |
| BerDecode.DecodeReads | src/asn1/asn1.cpp:1142-1207 | decoding any message whose empty indefinite nodes stand where they are harmless, with octets after it, gives its tree, tags as they are read back |
| BerDecode.BerRoundTrip | src/asn1/asn1.cpp:1142-1207 | decoding what was encoded gives the same tree exactly if every tag is at most 127 |
| BerHollow.LevelLegible | src/asn1/asn1.cpp:1142-1207 | nodes read as they are meant were read to their ends, and none of them has an empty indefinite node inside an indefinite level or before a mark look-alike, whatever the limit and the octets behind |
| BerHollow.ReadsExactly | src/asn1/asn1.cpp:803-872 | a message decodes to its tree exactly if its empty indefinite nodes stand on definite levels with no mark look-alike behind them, as long as no level has two of them |
| BerHollow.IndefiniteIsDefinite | src/asn1/asn1.cpp:803-872 | exactly then a message decodes like its definite rewriting, whatever follows |
| BerHollow.EmptyIndefiniteMisread | src/asn1/asn1.cpp:803-833 | the shortest message that is misread, and what it is read as |
| BerHollow.TwoHollows | src/asn1/asn1.cpp:812-814 | two empty indefinite nodes on one level, and nothing behind them: find_eoc reads beyond the buffer |
| BerErrors.CutOff | src/asn1/asn1.cpp:1170-1187 | an element cut off behind its identifier is refused with 300 if its length is not complete, with 200 if its contents are not |
| BerWire.DecodeTag | src/asn1/asn1.cpp:872-908 | the loops over identifier octets compute the tag specified |
| BerWire.DecodeLength | src/asn1/asn1.cpp:835-870 | the loop over length octets computes the length specified |
| BerWire.FindEndOfContents | src/asn1/asn1.cpp:803-833 | the scanning loop finds the end specified |
| BerWire.DecodeForest | src/asn1/asn1.cpp:1142-1207 | the decoding loop returns the forest or the error specified |
| BerWire.ReadNode | src/asn1/asn1.cpp:1154-1203 | one turn of the decoding loop |
| BerWire.ReadHeader | src/asn1/asn1.cpp:1163-1187 | a TLV's header, with the errors 200 and 300 |
| BerWire.EncodePreparedTag | src/asn1/asn1.cpp:1253-1279 | writes the identifier in as many octets as were counted for it, and nothing else in the buffer |
| BerWire.EncodePreparedLength | src/asn1/asn1.cpp:1299-1318 | writes the length in as many octets as were counted for it, a short one in the first of them, and nothing else in the buffer |
| BerOctets.PreparedTagAgrees | src/asn1/asn1.cpp:1209-1279 | counted by prepare_tag, those are the identifier octets |
| BerOctets.PreparedLengthAgrees | src/asn1/asn1.cpp:1281-1318 | counted by prepare_length, those are the length octets |
| BerLengths.CountInParentKeeps | src/asn1/asn1.cpp:151-194 | one level of update_parents moves the one difference that is not yet counted to the parent |
| BerLengths.UpdateParentsKeeps | src/asn1/asn1.cpp:151-194 | update_parents leaves all lengths on the way up counted |
| BerLengths.SetLinkedKeeps | src/asn1/asn1.cpp:128-134 | linking a node keeps the length invariant |
| BerLengths.SetDataKeeps | src/asn1/asn1.cpp:256-268 | linking octets to a leaf keeps the length invariant |
| BerLengths.UnlinkKeeps | src/asn1/asn1.cpp:210-254 | unlinking a node keeps the length invariant |
| BerLengths.LengthCountsChildren | src/asn1/asn1.cpp:151-194 | a constructed node's length is the sum of what its linked children take, exactly if the alternatives selected have one-octet tags |
| BerLengths.FreshIsRight | src/asn1/asn1.cpp:144-194 | an unused tree satisfies the length invariant |
| BerLengths.NextSession | src/asn1/asn1.cpp:151-194 | a new session on a used tree starts with right lengths exactly if every node a parent counts is out of the old session, or is a CHOICE whose selection was unlinked and has a one-octet tag |
| BerLengths.RunKeeps | src/asn1/asn1.cpp:128-268 | any allowed sequence of linking and unlinking keeps the length invariant |
| BerLengths.LengthsAfterAnyRun | src/asn1/asn1.cpp:128-268 | after any such sequence in any order every constructed node's length is the sum of its children's sizes |
| BerMessage.SizesAreEncodings | src/asn1/asn1.cpp:1618-1698 | stored lengths and sizes are those of the encoding |
| BerMessage.ResolvedMessage | src/asn1/asn1.cpp:1618-1660 | the tags and complexities encode writes back do not change the message |
| BerMessage.SizesStored | src/asn1/asn1.cpp:1646-1657 | the octet counts stored in a node are those its resolved tag and its length need, so encode may go on by them |
| BerMessage.NodeOctets | src/asn1/asn1.cpp:1618-1698 | a node's octets are its resolved identifier, its stored length, and its data or its children's octets |
| BerMessage.LinkedTreeRoundTrip | src/asn1/asn1.cpp:1618-1698 | after any sequence of linking and unlinking, decoding what is encoded gives the message exactly if its tags are small |
| BerNode.Node.CountInParent | src/asn1/asn1.cpp:151-190 | one level of update_parents, on the nodes |
| BerNode.Node.UpdateParents | src/asn1/asn1.cpp:151-194 | the whole chain of parents, on the nodes |
| BerNode.Node.SetLinkedData | src/asn1/asn1.cpp:128-134 | linking a node leaves the tree as specified |
| BerNode.Node.SetLinkedOctets | src/asn1/asn1.cpp:256-268 | linking octets leaves the tree as specified |
| BerNode.Node.UnlinkData | src/asn1/asn1.cpp:210-254 | unlinking leaves the tree as specified |
| BerNode.Node.Resolve | src/asn1/asn1.cpp:1625-1660 | writes the resolved tag, class and complexity back |
| BerNode.Node.EncodeHeader | src/asn1/asn1.cpp:1646-1657 | writes identifier and length with the counts stored in the node, and goes on by them |
| BerNode.Node.Encode | src/asn1/asn1.cpp:1618-1698 | with room enough, writes exactly the BER encoding of the linked nodes, nothing else in the buffer, and returns its length |
| BerNode.Node.EncodeChildren | src/asn1/asn1.cpp:1672-1694 | the children's encodings one after the other |
| BerSchemaRoundTrip.TlvTaken | src/asn1/asn1.cpp:1025-1075 | the TLV of a linked node is taken by that node, of a CHOICE by the alternative selected |
| BerSchemaRoundTrip.KidsBack | src/asn1/asn1.cpp:1010-1116 | matching the TLVs of a level against fresh children links what was linked, for SEQUENCE, SET and their OF forms |
| BerSetOrder.AnyOrderBack | src/asn1/asn1.cpp:1076-1085 | the elements of a SET, sent in whatever order, are all linked again, and nothing else |
| BerExtra.LevelEnds | src/asn1/asn1.cpp:1076-1085 | once the last child of a SEQUENCE is found nothing is left to search |
| BerExtra.ExtraGoesToLast | src/asn1/asn1.cpp:1010-1116 | a TLV more than a SEQUENCE has children changes nothing if primitive; what is in a constructed one goes where the contents of the last child went |
| BerSchemaRoundTrip.PackedTlvs | src/asn1/asn1.cpp:1013-1016 | elements missing from a SEQUENCE OF have no place in the encoding |
| BerSchemaRoundTrip.MessageBack | src/asn1/asn1.cpp:911-1132 | a fresh definition, whose root may be a CHOICE, ends up linked as the message was, and stands for the same TLVs |
| BerSchemaDecode.ReadIsMatch | src/asn1/asn1.cpp:938-1132 | reading with a definition reads what the decoder without one reads, matches it as it comes, and fails with 400 exactly if the whole message has more nodes than the pool |
| BerSchemaDecode.ReadKeeps | src/asn1/asn1.cpp:963-985 | every decoded node keeps the octet counts of its identifier and its length, and what its parent is to count for it |
| BerSchemaDecode.SchemaReads | src/asn1/asn1.cpp:911-1132 | a message in any length forms that means what was linked, decoded with a fresh definition, links exactly what was linked, and fails with 400 exactly if it has more nodes than the pool |
| BerReencode.EncodeKept | src/asn1/asn1.cpp:1618-1698 | encode on a decoded node: the octets it leaves, from the stored counts and what the buffer held |
| BerReencode.ReencodesExactly | src/asn1/asn1.cpp:1299-1318 | encoding decoded nodes gives the octets they were decoded from exactly if no length was indefinite and short ones took one octet |
| BerReencode.AnyFormRoundTrip | src/asn1/asn1.cpp:911-1132 | both for a message in any length forms |
| BerReencode.SchemaRoundTrip | src/asn1/asn1.cpp:911-1132 | decoding an encoded message with a fresh definition links exactly what was linked, and encoding the decoded nodes gives the same octets |
| BerInstance.LinkMeans | src/asn1/asn1.cpp:1618-1698 | a tree in memory made from a definition stands for the same message as the definition with what is linked in it |
| BerInstance.EncodedTreeRoundTrip | src/asn1/asn1.cpp:911-1746 | what encode writes of a linked tree, decoded with a fresh copy of its definition, links what was linked in the tree, and is encoded again to the same octets |
| BerDecoded.DecodedIsRight | src/asn1/asn1.cpp:976-985 | the lengths of a decoded tree are right exactly if every length came in the fewest octets and only a root's was indefinite |
| BerDecoded.DecodedMessage | src/asn1/asn1.cpp:963-998 | the message of a decoded tree is what was decoded |
| BerPool.RequestsDiffer | src/asn1/asn1.cpp:91-105 | requests give different entries exactly if there are no more of them than the pool has entries |
| BerPool.ASN1Pool.RequestTlv | src/asn1/asn1.cpp:99-105 | the entry a request gives and where the pool stands then |
| BerPool.ASN1Pool.RequestNode | src/asn1/asn1.cpp:91-97 | the same for nodes |
| BerPool.ReadCounts | src/asn1/asn1.cpp:963-965 | a decode that succeeds has counted every node and kept within the pool |
| BerPool.NothingAliased | src/asn1/asn1.cpp:938-1132 | no pool entry holds two TLVs of one successful decode, and none two of its nodes exactly if the pool has an entry for each |
| BerPool.ASN1Pool.ReadAll | src/asn1/asn1.cpp:938-1132 | the decoding loop over one level, with the two requests for every TLV, returns the nodes specified, in the entries the pools gave in turn |
| BerPool.ASN1Pool.Decode | src/asn1/asn1.cpp:911-935 | decode with a definition, whose root may be a CHOICE, returns the nodes specified, in entries of the pools of which none holds two TLVs |
| ConfigTree.CommitPutsInForce | src/cfg/mink_config.cpp:2243-2309 | a commit puts in force what was pending, leaves that pending, and nothing else |
| ConfigTree.SecondCommit | src/cfg/mink_config.cpp:2243-2309 | an immediate second commit returns 0 and changes nothing |
| ConfigTree.PretendForgetsNew | src/cfg/mink_config.cpp:2243-2309 | the pretended commit returns the same count, keeps what is pending, and the real one then gives the same tree |
| ConfigTree.PretendOnlyForgets | src/cfg/mink_config.cpp:2243-2309 | pretending changes nothing but new flags |
| ConfigTree.CountsChanges | src/cfg/mink_config.cpp:2243-2309 | the count is 0 exactly if committing does no more than pretending |
| ConfigChanges.CountIsOfChanges | src/cfg/mink_config.cpp:2243-2309 | the count is the number of modified or deleted nodes below which the commit does not stop, each counted once |
| ConfigChanges.AnnouncedIsCounted | src/cfg/mink_config.cpp:2965-3095 | after an announcing merge there is something to commit exactly if there was before or the contents name an item or a block behind a template |
| ConfigChanges.BlocksLoseMarks | src/cfg/mink_config.cpp:2162-2309 | a block that is there after a commit, or after discarding, was there before and differs in its marks and children alone |
| ConfigChanges.LoadingKeepsClean | src/cfg/mink_config.cpp:2965-3095 | a merge that does not announce, successful or stopped, leaves nothing to commit in a tree without changes |
| ConfigTree.PretendKeepsForce | src/cfg/mink_config.cpp:2254-2257 | pretending leaves what is in force exactly if the commit comes to no new block |
| ConfigTree.DiscardRestores | src/cfg/mink_config.cpp:2162-2214 | discarding leaves what is in force, and makes it what is pending |
| ConfigTree.NothingToDiscard | src/cfg/mink_config.cpp:2162-2214 | discarding without changes does nothing |
| ConfigMerge.CopyOfUntouched | src/cfg/mink_config.cpp:2134-2159 | copies of a template are as the template |
| ConfigMerge.PlacedKeeps | src/cfg/mink_config.cpp:3076-3088 | a block that joins, sorted or not, keeps the shape |
| ConfigMerge.MergeKeepsShape | src/cfg/mink_config.cpp:2965-3095 | a merge, successful or stopped half way, keeps the template discipline and the shape of the tree |
| ConfigValidate.SameVerdict | src/cfg/mink_config.cpp:2892-2962 | validate depends only on the shape of the tree |
| ConfigValidate.MergeSucceeds | src/cfg/mink_config.cpp:2892-3095 | merge returns 0 exactly if validate accepts the contents and the names behind templates fit, announcing or not |
| ConfigValidate.MergesAreIndependent | src/cfg/mink_config.cpp:2965-3095 | whether a merge succeeds does not depend on earlier merges |
| ConfigByName.ByNameAt | src/cfg/mink_config.cpp:250-260 | a name is in force exactly if the child of that name is, and reads as it does |
| ConfigByName.UniquePermuted | src/cfg/mink_config.cpp:50-61 | sorting keeps the names of siblings apart |
| ConfigByName.FindPlaced | src/cfg/mink_config.cpp:3076-3088 | after a new block joined, every name finds what it found before, and the new name the block |
| ConfigHidden.Grows | src/cfg/mink_config.cpp:2965-3095 | an announcing merge never takes anything out of force |
| ConfigAnnounce.Hidden | src/cfg/mink_config.cpp:2965-3095 | an announcing merge that lists no new block twice leaves what is in force, in any tree |
| ConfigAnnounce.Exposed | src/cfg/mink_config.cpp:3033-3044 | one that does puts something in force |
| ConfigStopped.SameReached | src/cfg/mink_config.cpp:2965-3095 | how far a merge gets in the contents depends only on the shape of the tree |
| ConfigStopped.StopsThere | src/cfg/mink_config.cpp:2965-3095 | a merge that stops leaves what merging the contents up to the first entry that does not fit, cut in the same way inside, leaves |
| ConfigAnnounce.ForceStays | src/cfg/mink_config.cpp:2965-3095 | in any tree, an announcing merge, successful or stopped, leaves what is in force exactly if the contents it reached list no block twice that is not in force, and none that is there without being in force |
| ConfigAnnounce.AnnouncingKeepsForce | src/cfg/mink_config.cpp:2965-3095 | from a tree without changes, exactly if the contents it reached list no block twice that is not there; these are all contents if it succeeds |
| ConfigAnnounce.StoppedBeforeOrAfter | src/cfg/mink_config.cpp:3007-3044 | an entry that does not fit leaves a block listed twice out of force if it comes first, and not if it comes last |
| ConfigAnnounce.ListedTwice | src/cfg/mink_config.cpp:3033-3044 | concrete contents that are announced and put in force at once |
| ConfigContents.MergePutsIn | src/cfg/mink_config.cpp:2965-3095 | after a successful announcing merge everything the contents say last is pending, and children they do not mention are as before |
| ConfigShape.PrepareKeepsShape | src/cfg/mink_config.cpp:2822-2857 | replace_prepare keeps the template discipline and the shape |
| ConfigShape.SweepKeepsShape | src/cfg/mink_config.cpp:2162-2309 | commit, real or pretended, and discard do |
| ConfigShape.SweepKeepsNames | src/cfg/mink_config.cpp:2162-2309 | they keep the names of siblings apart |
| ConfigShape.ResetKeepsShape | src/cfg/mink_config.cpp:2860-2890 | reset keeps the template discipline and the shape |
| ConfigShape.PreparedIsBlank | src/cfg/mink_config.cpp:2822-2857 | after replace_prepare nothing is pending but what the definition fixes, without values |
| ConfigShape.PrepareKeepsForce | src/cfg/mink_config.cpp:2822-2857 | replace_prepare leaves what is in force |
| ConfigShape.ResetIsBlank | src/cfg/mink_config.cpp:2860-2890 | after reset only what the definition fixes is left, in force and pending |
| ConfigShape.PrepareAndCommitIsReset | src/cfg/mink_config.cpp:2822-2890 | committing right after replace_prepare leaves in force what reset would |
| ConfigHistory.DefinitionIsSane | src/cfg/mink_config.cpp:3097-3114 | a definition validate_definition accepts satisfies what all operations rely on |
| ConfigHistory.DefinitionsExactly | src/cfg/mink_config.cpp:3097-3114 | validate_definition accepts what is parsed exactly if it has that shape and nothing stands behind its templates |
| ConfigSort.SortKeeps | src/cfg/mink_config.cpp:2217-2241 | sort, with its loop, its calls of std::sort and its recursion into the block it started from, keeps shape, names and what is in force |
| ConfigSort.OneWayToSort | src/cfg/mink_config.cpp:2217-2241 | where the names of siblings are apart, the order std::sort is given decides the outcome |
| ConfigOrder.AtoiReads | src/cfg/mink_config.cpp:174-187 | the digits of a number, with or without a sign, are compared as that number |
| ConfigOrder.BeforeOrders | src/cfg/mink_config.cpp:50-57 | names are put in one order by strcmp |
| ConfigOrder.InsertionIsSteady | src/cfg/mink_config.cpp:50-61 | there are sorts that put blocks in the order of the comparator and leave alone what is in order |
| ConfigOrder.PlacedIsOrdered | src/cfg/mink_config.cpp:3076-3088 | the level a new block joins, if it is no list, is in order behind the template |
| ConfigOrder.SortKeepsValues | src/cfg/mink_config.cpp:2217-2241 | sorting changes no value that is looked up by name |
| ConfigOrder.SortOrders | src/cfg/mink_config.cpp:2217-2241 | siblings that are sorted are in the order of the comparator when sort is done, by whatever sort orders them |
| ConfigOrder.SortsLevelInside | src/cfg/mink_config.cpp:2217-2241 | of siblings that are sorted all are sorted inside but the one that comes first, if it did not stand first; the one that did is sorted inside twice |
| ConfigOrder.SortsDeep | src/cfg/mink_config.cpp:2217-2241 | everything is in order at every depth afterwards exactly if every block that is passed over is in order inside |
| ConfigOrder.SortPutsInOrder | src/cfg/mink_config.cpp:2217-2241 | both of whatever sort does |
| ConfigOrder.PassedOver | src/cfg/mink_config.cpp:2217-2241 | two blocks of which the second is not sorted inside |
| ConfigHistory.ListedAgainKeepsInside | src/cfg/mink_config.cpp:2831-2842 | listing a block again after replace_prepare makes it pending with everything that was in it |
| ConfigReplace.SaysExactly | src/cfg/mink_config.cpp:2965-3095 | what a successful announcing merge makes pending is what the contents alone describe exactly if nothing else was pending that they do not mention |
| ConfigReplace.ResetPrepared | src/cfg/mink_config.cpp:2822-2890 | reset clears all that replace_prepare marks |
| ConfigReplace.ReplacesExactly | src/cfg/mink_config.cpp:2822-3095 | contents merged after replace_prepare make pending, and a commit puts in force, what they do in a reset tree, exactly if the blocks they list again hold nothing they do not mention |
| ConfigQuiet.QuietKeepsNames | src/cfg/mink_config.cpp:3045-3089 | a merge that does not announce, successful or stopped, keeps names apart exactly if no entry it reached makes a block of a name that is there |
| ConfigHistory.RunKeepsShape | src/cfg/mink_config.cpp:2134-3095 | any sequence of operations keeps the template discipline and the shape |
| ConfigHistory.RunKeeps | src/cfg/mink_config.cpp:2134-3095 | and the names apart, if nothing that is loaded makes a block of a name that is there |
| ConfigHistory.SessionHides | src/cfg/mink_config.cpp:2162-3095 | whatever is done in a session, what is in force stays; discarding leaves nothing else pending, committing puts in force what is |
| ConfigHistory.AnnounceAndDiscard | src/cfg/mink_config.cpp:2822-3095 | announcing contents, after replace_prepare or not, successfully or not, and discarding them leaves what was in force exactly if the contents reached list no block twice that is not there |
| ConfigItems.ConfigItem.Commit | src/cfg/mink_config.cpp:2243-2309 | the loop that erases children and updates fields leaves the tree specified, with right parent pointers, and returns the count |
| ConfigItems.ConfigItem.Discard | src/cfg/mink_config.cpp:2162-2214 | the loop that erases children and restores values leaves the tree specified |
| ConfigItems.ConfigItem.ReplacePrepare | src/cfg/mink_config.cpp:2822-2857 | the marking loops leave the tree specified |
| ConfigItems.ConfigItem.Reset | src/cfg/mink_config.cpp:2860-2890 | the resetting loop leaves the tree specified |
| ConfigItems.ConfigItem.CopyNodes | src/cfg/mink_config.cpp:2134-2159 | new nodes, copies of the source's, join the children; the source is as before |
| ConfigItems.ConfigItem.Merge | src/cfg/mink_config.cpp:2965-3095 | the merge loops leave the tree specified, also when they stop half way, and return as specified |
| ConfigItems.ConfigItem.MergeEntry | src/cfg/mink_config.cpp:2971-3090 | one node of the contents: the search and its branches |
| ConfigItems.ConfigItem.MergeNewEntry | src/cfg/mink_config.cpp:3045-3089 | a block made from a template joins only if the contents fit it |
| ConfigItems.ConfigItem.Sort | src/cfg/mink_config.cpp:2217-2241 | the loop that sorts siblings while it goes through them, and then what is in the block it started from, sorts the tree as specified and leaves all parent pointers right |
| ConfigItems.ConfigItem.SortBehind | src/cfg/mink_config.cpp:3080-3087 | the nodes behind a template in the order their trees are sorted in, each still itself |
| ConfigBuffer.ShowConfig | src/cfg/mink_config.cpp:1644-1711 | the first size octets are the rendering of the tree without valueless blocks, and nothing before the buffer's start changes |
| ConfigBuffer.ShowBlock | src/cfg/mink_config.cpp:1653-1689 | a block written and taken back if empty |
| ConfigBuffer.RenderNothing | src/cfg/mink_config.cpp:1685-1689 | a size of 0 means exactly that nothing is left of the block |
| ConfigText.TextReadsBack | src/cfg/mink_config.cpp:1644-1711 | a reader finds in the text all items that would be pending if nothing were deleted, with their paths and values, in their order |
| ConfigLines.GetCommandsLc | src/cfg/mink_config.cpp:705-813 | get_commands_lc is the number of lines show_commands prints |
| ConfigCommands.PrintsExactly | src/cfg/mink_config.cpp:744-813 | every line has its verb, the names from below the root to the node in that order, and the new value, exactly if no block with anything to print in it is called like the root |
| ConfigCommands.CommandsBringAbout | src/cfg/mink_config.cpp:744-813 | executed on nothing, the commands bring about all that is pending |
| ConfigCommands.CommandsUpdate | src/cfg/mink_config.cpp:744-813 | executed on what is in force they bring about what is pending exactly if no item is about to lose its value without being deleted |
| ConfigLines.GetConfigLc | src/cfg/mink_config.cpp:1198-1235 | the loop computes the count specified |
| ConfigLines.CountsLines | src/cfg/mink_config.cpp:1198-1388 | the lines show_config prints and those get_config_lc counts differ by what is counted for blocks not shown and what lists show inside; with bare lists they are equal exactly if every block with a deleted item without a text also holds a text or a list, and where that is so exactly if lists are bare |
| ConfigLines.DeletedTextIsCounted | src/cfg/mink_config.cpp:1198-1388 | blocks are as they should be if every deleted item still has its text |
| ConfigLines.MarksTell | src/cfg/mink_config.cpp:1237-1388 | a minus marks what a commit removes or empties, a plus what it changes besides, no mark what it leaves as it is |
| ConfigLines.ItemShown | src/cfg/mink_config.cpp:1237-1388 | an item is shown with the value it will have, one that is deleted with the text it had |
| ConfigLines.Aligned | src/cfg/mink_config.cpp:1237-1388 | the values of a block's items stand in one column |
| ConfigLines.WidthIsNeeded | src/cfg/mink_config.cpp:1237-1388 | which is no further to the right than the longest name needs |
| ConfigSave.SizeTells | src/cfg/mink_config.cpp:1070-1077 | the size measured without output is positive exactly if something of the block is saved |
| ConfigSave.CleanSavesAlike | src/cfg/mink_config.cpp:1020-1197 | without changes the same is saved with and without uncommitted data |
| ConfigSave.ParsesBack | src/cfg/minkParser.c:1937-3005 | the parser reads the tokens of saved definitions back, up to what follows them |
| ConfigSave.Breaks | src/cfg/minkParser.c:1937-2068 | the tokens of a list with more to show than its name make the parser fail |
| ConfigSave.BuildsBack | src/cfg/antlr_utils.cpp:112-206 | the tree builder makes of them the contents that were saved exactly if no name has a sort mark, no value holds a quote and no item has the word CONST for its value |
| ConfigSave.ConstComesBackAsBlock | src/cfg/antlr_utils.cpp:112-206 | an item that has it comes back as a block |
| ConfigSave.SortMarks | src/cfg/antlr_utils.cpp:112-206 | a sort mark in front of a name is taken off and kept as the sort node, and nothing else is different |
| ConfigSave.OtherBlocks | src/cfg/antlr_utils.cpp:112-206 | an ellipsis, and a block whose type is the word CONST, are built as blocks |
| ConfigSave.FileRoundTrip | src/cfg/minkParser.c:910-1081 | a saved file is parsed to its end exactly if its lists show nothing but their names, and then gives the contents that were saved exactly if the builder can tell them (as in `BuildsBack`) |
| ConfigParser.MinkParser.ConfigDefs | src/cfg/minkParser.c:954-1000 | the loop over definitions consumes the tokens as specified |
| ConfigParser.MinkParser.ConfigDef | src/cfg/minkParser.c:1937-2068 | the decision between a block and an item |
| ConfigParser.MinkParser.ConfigItem | src/cfg/minkParser.c:3013-3358 | an item with its type and descriptions, or an ellipsis |
| ConfigParser.MinkParser.ConfigBlock | src/cfg/minkParser.c:2076-3005 | a block with or without a type |
| ConfigParser.MinkParser.ConfigFile | src/cfg/minkParser.c:910-1081 | a whole file is parsed as the rule specifies; one that was saved, under the same two conditions as in `FileRoundTrip` |
| ConfigLoad.Loads | src/cfg/mink_config.cpp:2965-3095 | merging saved contents into a fresh definition succeeds and puts in force what was in force, but for valueless blocks behind templates and their order, if everything in force is printed |
| ConfigLoad.LevelLoses | src/cfg/mink_config.cpp:1153-1163 | what is printed reads as what is in force exactly if no item in force is about to lose its value without being deleted |
| ConfigLoad.LoadsExactly | src/cfg/mink_config.cpp:2965-3095 | loading always succeeds and puts in force what was printed, which is what was in force exactly then |
| ConfigLoad.SaveAndLoad | src/cfg/mink_config.cpp:1020-1197 | saving, parsing, building and merging together do |
| ConfigLoad.SetToNothing | src/services/config/events.cpp:588-599 | an item set to the empty text is in force and missing from the file saved before the commit |
| ConfigPending.SavesPending | src/cfg/mink_config.cpp:1153-1163 | with uncommitted changes the contents saved are those that would be saved after a commit |
| ConfigPending.TrimsAlike | src/cfg/mink_config.cpp:1020-1197 | what is saved of the two reads alike |
| ConfigPending.LoadsPending | src/cfg/mink_config.cpp:2965-3095 | merging them into a fresh definition puts in force all that was pending, but for blocks behind templates in which nothing of worth was |
| ConfigPending.SaveAndLoadPending | src/services/config/events.cpp:1926 | so do saving with uncommitted changes, parsing, building and merging together |
| ConfigStream.NtfyUsrStreamNext.Run | src/cfg/config_gdt.cpp:527-635 | the sender's next packet, or the end of the sequence |
| ConfigStream.NtfyUsrStreamNext.Open | src/cfg/config_gdt.cpp:855-870 | whatever the receiver counted before, the first packet tells it how many changes there are, modulo 2^32, and adds none |
| ConfigStream.CfgUpdateStreamNext.New | src/cfg/config_gdt.cpp:62-92 | the receiver takes the count from the parameters |
| ConfigStream.CfgUpdateStreamNext.Next | src/cfg/config_gdt.cpp:283-329 | the receiver's loop over parameters adds the records specified |
| ConfigStream.ChangeIsRead | src/cfg/config_gdt.cpp:283-329 | a packet of the sender adds the one change it carries |
| ConfigStream.EveryRun | src/cfg/config_gdt.cpp:252-635 | in every state of every run the receiver's list is a beginning of the sender's, at most one change behind |
| ConfigStream.WholeListArrives | src/cfg/config_gdt.cpp:252-635 | every stream ends, with as many changes as were announced, and with the list as sent exactly if types and states fit one octet |
| ConfigEvents.CallsAre | src/cfg/config_gdt.cpp:102-165 | one pass tells each listed node's handler once, if it was not told before |
| ConfigEvents.ToldOnce | src/cfg/config_gdt.cpp:102-250 | over both passes every listed change is told once, with the node in the state and with the value that are listed, to the handler of the node or of the nearest above it that was there; nothing else is told |
| ConfigEvents.SightsAre | src/cfg/config_gdt.cpp:118-128 | the handlers of one pass see listed states and values |
| ConfigEvents.MadeAs | src/cfg/mink_config.cpp:266-286 | a missing node is made a block if an earlier entry is about something in it, and else what its entry says |
| ConfigEvents.ListedThere | src/cfg/config_gdt.cpp:168-250 | what is listed is there afterwards, as that kind of node, unless it is a block that was to go |
| ConfigEvents.MadeInTheEnd | src/cfg/mink_config.cpp:266-286 | what was missing hears what the nearest node above it that was there hears; what was made on the way to something listed is an empty new block |
| ConfigEvents.ListedSettled | src/cfg/config_gdt.cpp:168-250 | afterwards listed blocks that were to go are gone, listed items have their new values and their flags are reset |
| ConfigEvents.FlagsAfter | src/cfg/config_gdt.cpp:225-238 | the flags of every node afterwards |
| ConfigEvents.NoneLeftNew | src/cfg/mink_config.cpp:266-286 | no node the update made stays marked as new exactly if every block missing on the way to something listed is listed |
| ConfigEvents.BlockLeftNew | src/cfg/mink_config.cpp:266-286 | a block that stays marked as new |
| ConfigEvents.ReadyAgain | src/cfg/config_gdt.cpp:225-238 | nobody is marked as told afterwards, so the next update is told as well |
| ConfigEvents.UnlistedKept | src/cfg/config_gdt.cpp:168-250 | whatever is neither listed nor below something deleted is as it was |
| ConfigUpdate.FlipsInAnyOrder | src/cfg/config_gdt.cpp:141-155 | the order in which handlers run makes no difference to the marks |
| ConfigUpdate.CfgUpdateStreamDone.ProcessCfgEvents | src/cfg/config_gdt.cpp:102-165 | grouping by handler and running the handlers, which see the nodes as they then are, is the pass specified |
| ConfigUpdate.CfgUpdateStreamDone.FindOrCreate | src/cfg/mink_config.cpp:228-294 | the lookup that makes missing nodes, name by name |
| ConfigUpdate.CfgUpdateStreamDone.ApplyOne | src/cfg/config_gdt.cpp:180-219 | the change one entry makes |
| ConfigUpdate.CfgUpdateStreamDone.Run | src/cfg/config_gdt.cpp:168-250 | the whole update, every change told once with its state and value |
| InjaProof.PopKeeps | src/codegen/inja.hpp:3075-3078 | applying pending operators takes no argument out of reach and loses nothing |
| InjaProof.Conserves | src/codegen/inja.hpp:2948-3187 | any written expression, in whatever frame, adds one argument's worth, touches nothing out of reach and never underflows the arguments |
| InjaProof.CallCloses | src/codegen/inja.hpp:3115-3147 | the parenthesis of a call closes it with the arguments counted |
| InjaRoundTrip.Parses | src/codegen/inja.hpp:2948-3187 | parsing an expression leaves its right spine pending, and with it its meaning exactly if its calls' arguments are separated |
| InjaRoundTrip.ParsesExactly | src/codegen/inja.hpp:2948-3187 | every written expression parses to one tree, the one meant exactly if the arguments of its calls are separated |
| InjaRoundTrip.MinimalRoundTrip | src/codegen/inja.hpp:2516-3187 | parsing inverts the spelling with fewest parentheses around operands, for every expression tree |
| InjaGrammar.GrammarIsSound | src/codegen/inja.hpp:2516-2608 | the grammar with its levels named operator by operator gives exactly the expressions whose operands have the parentheses they need, level by level |
| InjaGrammar.GrammarIsParsed | src/codegen/inja.hpp:2948-3187 | every expression of the grammar is parsed, and to the tree the grammar gives it exactly if the arguments of its calls end in time |
| InjaGrammar.TwoOperators | src/codegen/inja.hpp:2948-3187 | which way a o b p c groups, for every pair of operators |
| InjaGrammar.NamesAre | src/codegen/inja.hpp:2948-3187 | seven words are no names |
| InjaGrammar.WordsAre | src/codegen/inja.hpp:2948-3187 | three of them are values as they stand, and a name is a variable |
| InjaErrors.StrayToken | src/codegen/inja.hpp:2948-3187 | a bracket or brace that closes nothing, a comma or a colon outside of anything is an error |
| InjaErrors.UnknownCall | src/codegen/inja.hpp:3115-3147 | so is a call of a function that is not known with as many arguments |
| InjaErrors.NoTokens | src/codegen/inja.hpp:2948-3187 | no tokens are no expression, which is no error |
| InjaErrors.StrayValue | src/codegen/inja.hpp:2948-3187 | a value behind an expression is one too many |
| InjaSyntax.NoneHasFewer | src/codegen/inja.hpp:2516-2608 | no spelling with the parentheses its operands need has fewer around operands than the minimal one |
| InjaSyntax.MinimalIsSound | src/codegen/inja.hpp:2516-2608 | the minimal spelling has the parentheses the precedences need, and the same meaning |
| InjaParser.Parser.AddOperator | src/codegen/inja.hpp:2921-2930 | the loop that moves arguments into an operator |
| InjaParser.Parser.PopWhile | src/codegen/inja.hpp:3075-3078 | the loop that applies pending operators |
| InjaParser.Parser.Turn | src/codegen/inja.hpp:2949-3155 | one turn of the token loop |
| InjaParser.Parser.ParseExpression | src/codegen/inja.hpp:2948-3187 | the whole loop; a written expression gives a tree, the one meant exactly if its arguments are separated, and both stacks end empty |

## Left out

BER codec

- Nodes linked to a node other than themselves, ANY, EXTERNAL, `override_auto_complexity`, `mem_transfer_deep` and the copy constructors: the trees are prepared ones whose data sits on leaves.
- Adding children between operations: the shape of a tree is fixed while it is linked.
- Integer widths beyond the bounds stated: lengths are below 2^31-1 where they are encoded, and `tag_value` is not negative.
- BerDecode.DecodeReads: malformed input and reading beyond the buffer are outcomes of the model (Crash); of the latter it is only said that two empty indefinite nodes on one level are needed for it.
- BerReencode.SchemaRoundTrip: tags are at most 127, a CHOICE has no tag of its own (encode writes none, decode looks for one), and no alternative of a CHOICE is a CHOICE; decoding of messages with other TLVs than the definition's is modelled, with the match that outlives its search, but only their node count is characterised.
- BerReencode.EncodeKept: the decoded nodes are values; that a node matched by a CHOICE is reached through the CHOICE's selection is not modelled.
- The definition tree itself (`src/gdt/gdt_def.cpp`): any definition of the shape described stands for it.

Configuration tree

- `auto_complete`, console and ncurses printers, `search_fsys`, transactions, locks and user paths.
- Regular expressions and references to other nodes in patterns: whether a text fits a type, and the text without the quotes stripped, is a parameter.
- `std::sort`: any reordering; where order matters, any that orders by the comparator, and for the depth of sorting one that leaves alone what is in order. The comparator gives no order where some siblings have the sort node and some do not; this is excluded by its standing in the fixed part of the template (ConfigOrder.Keyed).
- ConfigOrder.Atoi: numbers too large for an int. Names with blanks, or called like the symbol for the parent, are looked up as they are.
- Trees outside ConfigTree.WellFormed: `commit` does not end on a deleted node that is neither block nor item, nor `discard` on a new item.
- ConfigContents.MergePutsIn: says of children the contents do not mention that they are as before on the level of the contents; below, the same lemma applies to each child.
- ConfigLoad.LoadsExactly: blocks behind templates are compared without regard to order, and those without a value that are no lists are not in the file.
- ConfigReplace.ReplacesExactly: configurations are compared by name, without regard to the order of siblings.
- What a merge writes back into the contents it reads (types, texts without quotes): contents are values.
- `validate` is a function: it changes nothing but the quotes in the contents, and builds copies it deletes.
- ConfigCommands.CommandsBringAbout: the commands' own interpreter is not modelled; nodes without a name, which are not printed, do not count.
- The lexer (its tokens are given), error recovery and memoisation of the parser, and the syntax only definition files use (types, stars, daemons to notify).

Distribution of changes

- The transport, sessions, heartbeats and the message tree around the parameters: a packet is a list of parameters, and the two ends take turns.
- ConfigStream.WholeListArrives: the count is announced modulo 2^32.
- ConfigEvents.ToldOnce: the daemon's tree is a map from paths to nodes, so siblings have different names and no order; the symbol for the parent is no part of a path.

Expression parser

- The text of an array or object literal is its tokens; whether it is valid JSON is not modelled.
- The function table is a set of names and argument counts; files, includes, rendering and statements are left out.
- Shared pointers into the operator stack are positions on it.
