# ipld-inline, modelled in Dafny

This project models the core of `ipld-inline`. The library implements the
ipld-inline-links format for IPLD. A subtree can be written in place of a
link as `{"/": {"data": x}}`, where the link is computed from `x`, or as
`{"/": {"data": x, "link": c}}`, where the link is given. The library has
two complementary pieces:

- **The extractor.** It walks a tree in post-order, turns each inline node
  back into a link, and yields every inlined block together with its CID.
  The root comes last.
- **The inliner.** It walks a tree in post-order and replaces every link
  whose block is in a store by the inline form of that block. It stops at a
  link it cannot find. A caller can then resolve, stub or ignore that link
  and resume.

Around these sit the block stores and the delimiter builders:

- **Stores.** `get`, `put_keyed`, `put`, `get_raw`, `extract` and
  `try_inline` over a map. There is also a store that hands out each block
  at most once.
- **Delimiter builders.** The `InlineIpld` types, the free builder
  functions and the `inline_ipld!` macro.
- **CID construction and the codec table.** DAG-CBOR is `0x71` and DAG-JSON
  is `0x0129`.

The repository holds three generations of the same code: `src/`,
`inline_ipld/` and `ipld_inline/`. Each algorithm is modelled once. Every
generation's version is cited against that shared model.

## How the model is organised

**Values, CIDs and codecs.**
- `Values.Ipld` is the IPLD value tree.
- A map keeps its keys and values as two parallel sequences in key order.
  `WF` states what a `BTreeMap` guarantees: the sequences have equal length
  and the keys strictly ascend.
- A CID is the triple `(version, codec, multihash)`.
- Encoding, digesting and the CID library's validity check are the function
  fields of `Hashing.Lib`.
- `Hashing.Hasher` is how an extractor files a value under a CID. It is
  either `cid::new` or `cid_of`. An `Err` from it is a panic: `cid::new`'s
  `expect` fails, or a `src/` extractor unwraps a failed `cid_of`.
- `Hashing.SafeLib` also fixes the CID library's rule: a version-1 CID is
  always built, and a version-0 CID only for dag-pb (`0x70`). So
  `cid::new` with either accepted codec panics at version 0.

**The post-order walk.**
- `Traversal.PostOrder(v)` is the recursive post-order: children left to
  right, then the parent.
- The two-stack `PostOrderIpldIter` is proved to yield exactly this
  sequence.
- The extractor and the inliner are state machines that consume this
  sequence.

**Extraction.**
- `Extraction.Extract` is the recursive meaning of the extractor.
- `Extraction.ExtractTrace` proves that the machine yields exactly its
  blocks, and then the root.
- The `expect`, `panic!` and `split_off` underflow paths never fire on a
  well-formed tree. A panic happens only where a CID computation fails.

**Inlining.**
- `Inlining.InlineLinks` is the recursive meaning of the `Quiet`/`Naive`
  inliner.
- `Inlining.FirstMissing` is an independent description of where it fails:
  the first missing link in post-order.

**Resuming.**
- `Resumable` models the stuck/resume inliners: `ExactlyOnce` in `src/` and
  in `ipld_inline/`, and `AtLeastOnce`. In all three, an `Err` sets `needs`
  and later calls to `next` return `None`.
- `Resumable.Session` drives `run` to completion. It answers every stuck
  link by a policy (resolve, stub or ignore).
- `Resumable.SessionResult` proves that the outcome is `Substitute`: the
  tree with each link replaced as the store and the policy say.

**Inlining then extracting.**
- `RoundTrip.ExtractInlined` proves that extraction undoes inlining: it
  gives back the original tree and the blocks read from the store.

## Model

| member | source | states |
|---|---|---|
| Codecs.Code | inline_ipld/src/codec.rs:49-58 | DAG-CBOR has code `0x71` and DAG-JSON has code `0x0129`, and only those codecs have those codes |
| Codecs.TryFromCode | inline_ipld/src/codec.rs:36-46 | a code converts to a codec exactly when it is `0x71` or `0x0129`; any other code is rejected as `UnsupportedCodec` carrying that same code |
| Codecs.TryFromCodeOfCode | inline_ipld/src/codec/total.rs:41-67 | converting a codec to its code and back gives the same codec |
| Codecs.CodeOfTryFromCode | inline_ipld/src/codec.rs:33-59 | a code that converts to a codec is that codec's code |
| Codecs.CodeInjective | inline_ipld/src/codec/total.rs:57-66 | distinct codecs have distinct codes |
| Codecs.FromDagCbor | inline_ipld/src/codec/total.rs:69-74 | the DAG-CBOR unit codec converts to the codec with code `0x71` |
| Codecs.FromDagJson | inline_ipld/src/codec.rs:75-80 | the DAG-JSON unit codec converts to the codec with code `0x0129` |
| Codecs.UnitConversionsRoundTrip | inline_ipld/src/codec.rs:61-87 | the conversions between the unit codecs and the codec enum round-trip and agree with the code table |
| Hashing.CidOf | src/cid.rs:11-23 | an encoding failure gives `EncodingError`; a CID the library rejects gives `ConstructionError`; otherwise the CID has the requested version, the codec's code and the digest of the encoding |
| Hashing.New | inline_ipld/src/cid.rs:35-48 | defined only where the cid library builds the CID, since `expect` panics otherwise; the CID carries the requested version and the codec's code, and its multihash is the digest of the codec's encoding |
| Hashing.NewPanicsExactlyAtV0 | inline_ipld/src/cid.rs:46-47 | for the codecs `cid::new` accepts, the cid library builds the CID exactly when the version is 1, so the `expect` panics exactly at version 0 |
| Hashing.NewChecked | inline_ipld/src/cid.rs:35-48 | `cid::new` with its panic as `ConstructionError`: it fails exactly at version 0, it agrees with `cid_of`, and at version 1 it gives the CIDv1 of the codec's code over the digest of the encoding |
| Hashing.CidOfAgreesWithNew | src/iterator/extractor.rs:134-146 | with a codec that always encodes, `cid_of` never reports `EncodingError`; it succeeds exactly at version 1, and then gives the same CID as `cid::new` |
| Hashing.NewHasher | inline_ipld/src/extractor.rs:73-78 | the inline_ipld extractor's hashing fails on every value at version 0 and on none at version 1; it agrees with `cid_of` on every value, and at version 1 files a value under the CIDv1 over the digest of its encoding |
| Hashing.CidOfHasher | src/extractor.rs:47-57 | the src extractor's hashing reports an encoding failure exactly when the codec cannot encode the value; when it succeeds, the CID has the requested version and codec over the digest of the encoding |
| Traversal.New | inline_ipld/src/iterator/post_order.rs:18-23 | a new iterator has the recursive post-order of the root still to yield |
| Traversal.ExpandPreservesPending | inline_ipld/src/iterator/post_order.rs:35-57 | moving a container from the inbound stack to the outbound stack, with its children pushed, keeps the sequence still to yield and shrinks the work left |
| Traversal.Next | inline_ipld/src/iterator/post_order.rs:35-57 | `next` yields the first item still pending and leaves exactly the rest; it yields `None` exactly when nothing is pending, and keeps doing so |
| Traversal.Collect | src/iterator/post_order.rs:28-50 | draining the iterator yields exactly the recursive post-order: children left to right in list or key order, then the parent, so the root comes last |
| Traversal.PostOrderLength | src/iterator/post_order.rs:32-47 | the walk yields as many items as the tree has nodes |
| Traversal.PostOrderAllAppend | src/iterator/post_order.rs:28-50 | the walk of a sequence of siblings is the walks of its parts, one after the other |
| Traversal.PostOrderHeadNotDelimiter | inline_ipld/src/iterator/post_order.rs:35-57 | the first item of a well-formed tree's walk is a leaf or an empty container, so never a `"/"` map |
| Traversal.WalkHeadNotDelimiter | inline_ipld/src/iterator/post_order.rs:35-57 | whatever follows it, a well-formed tree's walk never starts with a `"/"` map, so the extractor never mistakes a subtree's first item for a delimiter |
| Traversal.MakePeekable | inline_ipld/src/extractor.rs:55 | wrapping the iterator in `Peekable` keeps the sequence still to yield |
| Traversal.PeekableNext | inline_ipld/src/iterator/post_order.rs:35-57 | `next` on the peekable walk yields its first remaining item, including a peeked one, and leaves the rest |
| Traversal.Peek | inline_ipld/src/iterator/post_order.rs:73-78 | peeking shows the next item without consuming it |
| Traversal.IsDelimiterNext | src/iterator/post_order.rs:66-71 | the answer is true exactly when the next item is a map whose only key is `"/"`, and nothing is consumed |
| Traversal.DelimiterAfterFirstItem | src/iterator/post_order.rs:52-64 | in the walk of `{"/": 123}`, once `123` has been taken the delimiter is next |
| Inline.Wrap | src/inliner/quiet.rs:40-49 | the inliner's replacement for a stored link is an inline node whose payload is the block and whose link is the CID; it is well formed exactly when the block is |
| Inline.WrapInherit | inline_ipld/src/ipld/inline.rs:98-103 | `{"/": {"data": x}}` is an inline node with payload `x` and no link |
| Inline.InlineIsBuilt | inline_ipld/src/extractor.rs:86-117 | every node the extractor treats as inline is one of the two builder shapes, determined by its payload and link |
| Inline.DataTestsMatchShapes | inline_ipld/src/extractor.rs:86-106 | on a well-formed map, the extractor's tests (`get("data")` and a key count, plus `get("link")` holding a link) hold exactly for the two data shapes |
| Extraction.InitIsPeekableWalk | inline_ipld/src/extractor.rs:48-61 | a new extractor starts on the peekable post-order walk of the root with an empty stack |
| Extraction.Step | inline_ipld/src/extractor.rs:70-133 | one turn of the loop consumes an item of the walk, or pops the finished root once the walk is empty |
| Extraction.Next | inline_ipld/src/extractor.rs:70-133 | one call to `next`: the blocks still to come are the yielded block followed by those of the rest; `None` means nothing is left, and a panic means the run fails |
| Extraction.Collect | src/iterator/extractor.rs:52-116 | iterating the extractor to the end collects exactly the blocks of its run, or reports the panic |
| Extraction.NextShrinks | src/extractor.rs:47-110 | every yielded item leaves a strictly smaller machine state, so iteration terminates |
| Extraction.ExtractRun | inline_ipld/src/extractor.rs:80-125 | running over a subtree's walk yields that subtree's extracted blocks and leaves its extracted node on the stack, whatever follows and whatever is below |
| Extraction.ExtractRunAll | inline_ipld/src/extractor.rs:80-83 | running over the walks of siblings leaves their extracted nodes on the stack in order, which is what the list rebuild pops |
| Extraction.ExtractRunList | inline_ipld/src/extractor.rs:80-83 | a list's walk yields its elements' blocks and leaves the list of their extracted nodes on the stack, popping exactly as many values as the list has elements |
| Extraction.ExtractListOf | inline_ipld/src/extractor.rs:80-83 | a list extracts to the list of its elements' extracted nodes, carrying their blocks in order |
| Extraction.ExtractRunMap | inline_ipld/src/extractor.rs:121-125 | a map that is not inline is rebuilt with its own keys paired in order with the top values of the stack |
| Extraction.UnlinkedStep | inline_ipld/src/extractor.rs:88-101 | `{"/": {"data": x}}` replaces itself by a link to the computed CID of the extracted `x` and yields that block |
| Extraction.StepUnlinkedData | inline_ipld/src/extractor.rs:88-101 | at the data map of `{"/": {"data": x}}`, with the delimiter next, the step pops `x`, consumes the delimiter and yields `x` under its computed CID, or panics when the CID cannot be computed |
| Extraction.LinkedStep | inline_ipld/src/extractor.rs:103-117 | `{"/": {"data": x, "link": c}}` replaces itself by `Link(c)` and yields `(c, x')`, trusting `c` |
| Extraction.StepLinkedData | inline_ipld/src/extractor.rs:103-117 | at the data map of `{"/": {"data": x, "link": c}}`, with the delimiter next, the step pops both values, consumes the delimiter, yields `(c, x)` and leaves `Link(c)` |
| Extraction.ExtractRunInline | inline_ipld/src/extractor.rs:86-117 | an inline node's walk yields its payload's blocks, then its own block, and leaves the link on the stack |
| Extraction.ExtractTrace | inline_ipld/src/extractor.rs:70-78 | on a well-formed tree the extractor yields the blocks of `Extract` innermost first, then the extracted root under its CID, then stops; it panics only where a CID computation fails |
| ExtractionFacts.ExtractIdentity | src/extractor.rs:158-161 | a tree with no inline node extracts to itself with no blocks |
| ExtractionFacts.ExtractAllIdentity | src/iterator/extractor.rs:104-108 | siblings with no inline node extract to themselves |
| ExtractionFacts.ExtractorIdentity | inline_ipld/src/extractor.rs:153-158 | on a tree with no inline node, the only item yielded is the tree under its own CID |
| ExtractionFacts.ExtractCount | inline_ipld/src/extractor.rs:86-117 | extraction yields one block per inline node |
| ExtractionFacts.ExtractAllCount | inline_ipld/src/extractor.rs:80-83 | the blocks of a sequence of siblings number the inline nodes among them |
| ExtractionFacts.ExtractCidsComputed | inline_ipld/src/extractor.rs:160-165 | when every inline node leaves its link to be computed, each block is filed under its own CID |
| ExtractionFacts.ExtractAllCidsComputed | src/extractor.rs:66-79 | the same for a sequence of siblings |
| ExtractionFacts.ExtractorCidsComputed | inline_ipld/src/extractor.rs:160-165 | the same for the machine's whole output, root included |
| ExtractionFacts.ExtractTotal | inline_ipld/src/extractor.rs:88-117 | with a hasher that never fails, extraction never fails |
| ExtractionFacts.ExtractAllTotal | src/extractor.rs:58-61 | the same for a sequence of siblings |
| ExtractionFacts.ExtractorTotal | inline_ipld/src/extractor.rs:73-78 | with hashing that never fails the machine never panics; it yields one item per inline node plus one, the last being the extracted root under its CID |
| ExtractionFacts.NewExtractorPanicsAtV0 | inline_ipld/src/extractor.rs:73-78 | the inline_ipld extractor with `cid::new` at version 0 panics on every well-formed tree, when it computes the root's CID if not before |
| ExtractionFacts.NewExtractorTotalAtV1 | inline_ipld/src/extractor.rs:73-78 | at version 1 the same extractor never panics, and yields one item per inline node plus one |
| ExtractionFacts.ExtractWrap | inline_ipld/src/extractor.rs:224-247 | `{"/": {"data": x, "link": c}}` around delimiter-free `x` extracts to `Link(c)` and yields `(c, x)` |
| ExtractionFacts.ExtractWrapInherit | inline_ipld/src/extractor.rs:193-221 | `{"/": {"data": x}}` around delimiter-free `x` extracts to a link to `x`'s CID and yields `x` under it |
| ExtractionFacts.ExtractInheritOf | inline_ipld/src/extractor.rs:88-101 | `{"/": {"data": x}}` extracts to a link to the CID of `x`'s extracted node, yielding `x`'s blocks and then that node under the CID |
| ExtractionFacts.TraceOfExtracted | src/extractor.rs:50-57 | the run ends with the extracted root under its computed CID, after the extracted blocks |
| ExtractionFacts.ExtractPairList | inline_ipld/src/extractor.rs:80-83 | a two-element list extracts element-wise, the first element's blocks first |
| ExtractionFacts.NestedExtract | inline_ipld/src/extractor.rs:304-337 | in the nested example, the inner block comes first and the outer block holds the link to it |
| ExtractionFacts.NestedExample | inline_ipld/src/extractor.rs:304-337 | the nested example yields `["a","b"]`, then `[1, link]`, then the root link, each under its own CID |
| Inlining.New | src/inliner/quiet.rs:21-27 | a new inliner starts on the post-order walk of the root with an empty stack and the given store |
| Inlining.Step | src/inliner/quiet.rs:37-74 | one turn of the loop never writes the store; a stored link becomes its inline form on the stack; a missing link is reported having consumed just that link; `Ok` comes only once the walk is over; the machine halts exactly when walk and stack are empty |
| Inlining.Next | inline_ipld/src/inliner/naive.rs:56-93 | one call to `next` reads but never writes the store; an `Err` names a link not in the store; `None` comes only when walk and stack are exhausted |
| Inlining.InlineLinksAll | inline_ipld/src/inliner/naive.rs:74-84 | a successful rebuild of a container's children has one value per child |
| Inlining.FirstMissing | src/inliner/quiet.rs:40-51 | a link in the walk whose block the store lacks, with every earlier link stored, so the first such link; when there is none, every link in the walk is stored |
| Inlining.FirstMissingAppend | src/inliner/quiet.rs:38-53 | the first missing link of two walks in sequence is the first one's, if it has one |
| Inlining.InlineFailsAtFirstMissing | src/inliner/quiet.rs:50-51 | inlining fails exactly when some link is missing, and then with the first missing link in post-order |
| Inlining.InlineAllFailsAtFirstMissing | src/inliner/quiet.rs:55-65 | the same for a sequence of siblings |
| Inlining.InlineIdentity | src/inliner/quiet.rs:55-73 | a tree without links is inlined to itself |
| Inlining.InlineAllIdentity | inline_ipld/src/inliner/naive.rs:74-88 | siblings without links are inlined to themselves |
| Inlining.InlineKeepsWF | inline_ipld/src/inliner/naive.rs:74-84 | inlining a well-formed tree with well-formed stored blocks keeps it well formed; maps keep their keys |
| Inlining.InlineAllKeepsWF | src/inliner/quiet.rs:55-65 | the same for a sequence of siblings |
| Inlining.InlineRun | src/inliner/quiet.rs:37-74 | running over a subtree's walk leaves its inlined value on the stack, or stops with `Err` of its first missing link |
| Inlining.InlineRunAll | src/inliner/quiet.rs:55-65 | running over siblings' walks leaves their inlined values on the stack in order, or stops at the first missing link |
| Inlining.FirstNext | src/inliner/quiet.rs:73 | on a well-formed tree, the first item is `Ok` of the inlined tree or `Err` of the first missing link; after an `Ok` the next call returns `None` |
| Inlining.NoLinksUnchanged | inline_ipld/src/inliner/naive.rs:86-92 | a link-free tree comes back as `Ok` of itself, once |
| Resumable.New | inline_ipld/src/inliner/at_least_once.rs:21-26 | a new resumable inliner is not stuck and starts on the root's walk with the given store |
| Resumable.QuietConversions | inline_ipld/src/inliner/at_least_once.rs:29-39 | wrapping an inliner and unwrapping it again gives it back; an unstuck wrapper is the wrapper of its inner inliner |
| Resumable.Next | src/inliner/exactly_once.rs:62-79 | while stuck, `next` returns `None`; otherwise it passes the inner item through, and an `Err(c)` makes it stuck on `c` |
| Resumable.Store | ipld_inline/src/inliner/exactly_once.rs:59-61 | `store` inserts `(c, x)` into the store and changes nothing else |
| Resumable.Interject | inline_ipld/src/inliner/at_least_once.rs:65-68 | `interject` clears `needs` and pushes the value onto the result stack |
| Resumable.TryStuck | src/inliner/exactly_once.rs:33-45 | conversion to `Stuck` succeeds exactly when the inliner is stuck, and `needs` is the link it is stuck on |
| Resumable.StuckAt | inline_ipld/src/inliner/traits.rs:87-92 | `stuck_at(c)` needs `c` |
| Resumable.Stub | src/inliner/exactly_once.rs:152-164 | `stub` pushes the inline form of the block under the needed link, un-sticks the inliner and leaves the store alone |
| Resumable.Resolve | src/inliner/exactly_once.rs:116-123 | `resolve` stores the block under the needed link and then does what `stub` does |
| Resumable.Ignore | src/inliner/exactly_once.rs:195-199 | `ignore` pushes the bare link and un-sticks the inliner, so the link stays in the output |
| Resumable.StubIsResolveWithoutStore | src/inliner/traits.rs:84-127 | after `stub` the inliner is the one after `resolve`, except for the store write |
| Resumable.ResolveResumes | inline_ipld/src/inliner/traits.rs:141-144 | resolving a link and resuming continues exactly as if the block had been in the store all along |
| Resumable.QuietResolveResumes | src/inliner/quiet.rs:29-31 | a value pushed after `Err(c)` takes the place of the missing link when the walk resumes |
| Resumable.Drain | src/inliner/exactly_once.rs:237-246 | `last` returns nothing only when there is no first item; a last `Err` leaves the inliner stuck on that link, further along the walk |
| Resumable.DrainOutcome | src/inliner/exactly_once.rs:237-246 | on a well-formed tree, `last` returns the single item of the run: the inlined tree, or the first link whose block is missing |
| Resumable.Run | src/inliner/exactly_once.rs:237-246 | a `run` that gets stuck hands back a handle whose inliner is stuck on the same link, further along the walk |
| Resumable.RunOutcome | src/inliner/exactly_once.rs:227-246 | on a well-formed tree, `run` returns the inlined tree when every link is stored, and otherwise gets stuck on the first missing link in post-order |
| Resumable.Apply | inline_ipld/src/inliner/traits.rs:141-215 | answering a stuck link by resolve, stub or ignore leaves the walk where it was |
| Resumable.SubstituteAll | src/inliner/quiet.rs:55-65 | replacing links inside siblings keeps their number |
| Resumable.SessionStep | src/inliner/exactly_once.rs:62-79 | one step of a session: a stuck link is answered by the policy and the session resumes |
| Resumable.SessionStoreIrrelevant | src/inliner/traits.rs:84-87 | the store written by `resolve` changes nothing later, since a resolved link is answered the same way from either store |
| Resumable.SessionAtLink | inline_ipld/src/inliner/traits.rs:141-215 | at a link, a session puts the link's replacement on the stack: the stored block, or what the policy's answer supplies |
| Resumable.SessionRun | src/inliner/quiet.rs:37-74 | a session over a subtree's walk leaves the subtree with all links replaced on the stack |
| Resumable.SessionRebuild | src/inliner/quiet.rs:55-65 | a container is rebuilt from its children's replaced values, keeping its keys |
| Resumable.SessionRunLink | src/inliner/quiet.rs:40-51 | a session over a single link leaves its replacement on the stack |
| Resumable.SessionLeaf | src/inliner/quiet.rs:67-69 | a node that is neither a container nor a link is pushed unchanged |
| Resumable.SessionRunAll | src/inliner/quiet.rs:55-65 | a session over siblings' walks leaves their replaced values in order |
| Resumable.SessionResult | inline_ipld/src/inliner/traits.rs:141-215 | running to the end and answering every stuck link by a policy gives the tree with every stored link inlined, every resolved or stubbed link inlined with the supplied block, and every ignored link kept |
| Resumable.SubstituteAgrees | src/inliner/exactly_once.rs:227-246 | when every link is stored, the policy is never consulted and the result is the plain inlining |
| Resumable.SubstituteAllAgrees | src/inliner/quiet.rs:55-65 | the same for a sequence of siblings |
| Resumable.IgnoringKeepsLinks | src/inliner/traits.rs:158-161 | with an empty store and a policy that ignores every link, the output is the input |
| Resumable.IgnoringKeepsLinksAll | src/inliner/traits.rs:148-161 | the same for a sequence of siblings |
| Stores.Get | inline_ipld/src/store/traits.rs:215-223 | `get` finds exactly the stored CIDs, returns their block, and reports `BlockNotFound` of the asked CID otherwise |
| Stores.PutKeyed | src/store/traits.rs:97-105 | `put_keyed` adds exactly the given CID to the keys |
| Stores.GetAfterPutKeyed | inline_ipld/src/store/traits.rs:215-223 | after `put_keyed(c, b)`, `get(c)` returns `b`, and every other CID reads as before |
| Stores.Put | src/store/traits.rs:22-36 | `put` files the block under its computed CID; on a CID error nothing is stored and the error is returned |
| Stores.GetAfterPut | src/store.rs:23-37 | after a successful `put`, `get` of the returned CID gives the block back |
| Stores.PutWithNew | inline_ipld/src/store/traits.rs:101-114 | with `cid::new` at version 1, `put` succeeds, returns that CID and stores the block under it; at version 0 `cid::new` panics and nothing is stored |
| Stores.GetRaw | inline_ipld/src/store/traits.rs:152-162 | `get_raw` reports a missing block first, then an unknown codec, then an encoding failure, and otherwise returns the encoding of the block with the CID's codec |
| Stores.RawErrorEqIsEqualityButEncodeFailed | inline_ipld/src/store/traits.rs:242-257 | two `GetRawError`s are equal exactly when they are the same `NotFound` or the same `UnknownCodec`; `EncodeFailed` is never equal, even to itself; the relation is symmetric |
| Stores.PutAllContents | inline_ipld/src/store/traits.rs:200-212 | after putting a sequence of blocks, a CID is present exactly when it was before or is among them, the last write wins, and untouched entries stay |
| Stores.PutAllAppend | src/store/traits.rs:70-82 | putting two sequences one after the other is putting their concatenation |
| Stores.Extract | src/store/traits.rs:70-82 | `extract` stores exactly the pairs the extractor yields, in order, and fails exactly when the extractor would panic |
| Stores.PutAllKeepsContentAddressed | inline_ipld/src/store/traits.rs:200-212 | a store whose every block is under its own CID stays so after putting blocks that each are |
| Stores.NewMemoryStore | inline_ipld/src/store/memory.rs:17-21 | a new memory store has no blocks |
| Stores.MemoryStoreConversions | inline_ipld/src/store/memory.rs:24-34 | conversion from a map and back to a map are mutually inverse |
| Stores.MemoryGet | inline_ipld/src/store/memory.rs:36-39 | `get` on a memory store is `get` on its map |
| Stores.MemoryPutKeyed | src/store.rs:64-72 | `put_keyed` inserts or overwrites exactly one entry and leaves all other CIDs as they were |
| AtMostOnce.FromStore | src/store/at_most_once.rs:12-19 | a wrapped store starts with no tombstones |
| AtMostOnce.Get | src/store/at_most_once.rs:22-31 | `get` succeeds exactly for a stored CID that is not tombstoned; success tombstones it; failure changes nothing and reports `BlockNotFound` |
| AtMostOnce.PutKeyed | src/store/at_most_once.rs:33-35 | `put_keyed` writes through to the wrapped store and leaves the tombstones alone |
| AtMostOnce.SecondGetFails | src/store/at_most_once.rs:27-30 | a second `get` of a block just handed out fails |
| AtMostOnce.PutDoesNotRevive | src/store/at_most_once.rs:33-35 | putting a block under a tombstoned CID does not make it readable |
| AtMostOnce.HandedOutAtMostOnce | src/store/at_most_once.rs:22-35 | over any sequence of reads and writes, no CID's block is handed out twice, none tombstoned at the start is handed out, and the final tombstones are the initial ones plus those handed out |
| AtMostOnce.FromStoreHandsOutOnce | src/store/at_most_once.rs:12-31 | from a fresh wrapper, every block is handed out at most once |
| StoreOps.TryInline | src/store/traits.rs:50-54 | `try_inline` returns the last item of the exactly-once inliner, and panics only if there is none |
| StoreOps.TryInlineInlines | src/store/traits.rs:50-54 | on a well-formed tree `try_inline` never panics; it returns the inlined tree, or `Err` of the first missing link in post-order exactly when one is missing |
| StoreOps.QuietLast | src/store/traits.rs:56-61 | the quiet inliner's last item is absent exactly when its first call returns `None` |
| StoreOps.InlineAtMostOnce | src/store/traits.rs:56-61 | `inline_at_most_once` succeeds exactly when the quiet inliner's last item is a value, and returns that value |
| StoreOps.InlineAtMostOnceInlines | src/store/traits.rs:56-61 | when every link of a well-formed tree is stored, `inline_at_most_once` returns the inlined tree |
| RoundTrip.StoredLinks | src/inliner/quiet.rs:40-49 | the blocks the inliner embeds, each the stored block of its CID |
| RoundTrip.InlinedNotInline | src/inliner/quiet.rs:40-69 | inlining never turns a node that is neither a link nor inline into an inline one |
| RoundTrip.ExtractInlined | inline_ipld/src/extractor.rs:103-117 | extracting an inlined tree gives back the original tree and yields each embedded block under the CID it was stored under, in walk order |
| RoundTrip.ExtractAllInlined | src/extractor.rs:99-102 | the same for a sequence of siblings |
| RoundTrip.ExtractorUndoesInliner | inline_ipld/src/extractor.rs:70-133 | the extractor run on the inliner's output yields the embedded blocks and then the original tree under its CID |
| RoundTrip.InlinerThenExtract | src/inliner/quiet.rs:37-74 | when every link is stored, the inliner's one item is a value that extracts back to the original tree |
| InlineValue.New | inline_ipld/src/ipld/inline.rs:65-75 | `new(c, x)` is the inline node with payload `x` and link `c`, and remembers `c` |
| InlineValue.NewInheritLink | inline_ipld/src/ipld/inline.rs:98-103 | `new_inherit_link(x)` is the inline node with payload `x` and no link, and remembers no CID |
| InlineValue.Attest | inline_ipld/src/ipld/inline.rs:134-136 | `attest(x)` keeps `x` unchanged, with no CID |
| InlineValue.TryIntoCid | inline_ipld/src/ipld/inline.rs:27-33 | the conversion to a CID succeeds exactly when a CID is remembered, and gives it |
| InlineValue.Conversions | inline_ipld/src/ipld/inline.rs:15-25 | only `new` remembers a CID; conversion to `Ipld` gives the value; comparison with a plain value ignores the CID, so an attested copy equals a `new` value as `Ipld` but not as `InlineIpld` |
| InlineValue.ExtractConstructed | inline_ipld/src/ipld/inline.rs:65-103 | extraction files a `new` value's payload under the CID `cid()` reports, and a `new_inherit_link` value's payload under its computed CID |
| Builders.InlineIpld | ipld_inline/src/ipld.rs:75-82 | `inline_ipld(c, x)` is the inline node with payload `x` and link `c`, unchecked |
| Builders.InlineIpldInherit | ipld_inline/src/ipld.rs:105-107 | `inline_ipld_inherit(x)` is the inline node with payload `x` and no link |
| Builders.InlineIpldLink | ipld_inline/src/ipld.rs:138-152 | `inline_ipld_link` links to the CIDv1 of `x` under the given codec and digester |
| Builders.LinkedAgreesWithInherited | ipld_inline/src/ipld.rs:105-152 | with the same codec and digester, extracting `inline_ipld_link(x)` and extracting `inline_ipld_inherit(x)` give the same link and the same block |
| Builders.WrapInlined | inline_ipld/src/ipld/inlined.rs:65-74 | `wrap(c, x)` is the inline node with payload `x` and link `c` |
| Builders.WrapInheritInlined | inline_ipld/src/ipld/inlined.rs:97-101 | `wrap_inherit_link(x)` is the inline node with payload `x` and no link |
| Builders.WrapWithLink | inline_ipld/src/ipld/inlined.rs:132-148 | `wrap_with_link` links to the CIDv1 of `x` under the given codec and digester |
| Builders.AttestInlined | inline_ipld/src/ipld/inlined.rs:179-181 | `attest(x)` holds `x` unchanged |
| Builders.InlinedAgrees | inline_ipld/src/ipld/inlined.rs:23-39 | the newtype exposes only the value, so `wrap` and `wrap_inherit_link` are `attest` of the free builders, and `wrap_with_link` is `wrap` under the computed CID |
| Builders.InlineMacro | src/ipld.rs:115-136 | the unary macro omits the link, the binary one uses the given CID unchecked, and the ternary one computes the CIDv1 |
| Builders.ModuleExample | ipld_inline/src/ipld.rs:18-42 | the builders nest: the example built from all three equals the tree with the delimiters written out |
| Builders.ModuleExampleExtracts | ipld_inline/src/ipld.rs:18-42 | extracting the example with the same codec and digester gives back the plain tree and yields the two lists and the inherited map, innermost first |

## Left out

- Encoding, digesting and CID construction are the library's own code. They enter as function parameters (`Hashing.Lib`), so the byte formats are not modelled. `get_raw` returns whatever the encoder gives.
- `Float` is an opaque 64-bit leaf that is only copied; no floating-point behaviour is modelled.
- `GetRawError::EncodeFailed` carries a library error value. It is modelled without a payload, since the equality of `GetRawError` never compares it.
- `put_default` and the sha2 feature are left out: they only fix the codec and digester passed to `put`.
- In src/store/traits.rs, `put` returns `Ok(())`. `Stores.Put` returns the CID in both generations; the store contents are the same.
- The AtMostOnce inliners (src/inliner/at_most_once.rs, inline_ipld/src/inliner/at_most_once.rs) are not part of this model. Their `seen` set is never written, and their signatures do not match the inliner trait. For the same reason `try_inline_exactly_once` (src/store/traits.rs:63-68), which runs that inliner, is left out.
- StoreOps.InlineAtMostOnce: only the case where every link is stored is stated. Past a missing link the quiet inliner rebuilds parents from whatever is on its stack, and no useful property holds.
- inline_ipld/src/inliner/naive.rs:47-51 (`store` returns the store, not `()`) and inline_ipld/src/store/memory.rs:37 (`get` passes `cid` by value where a reference is expected) do not compile as written. They are modelled as evidently intended: `store` inserts the block, and `get` looks the CID up in the inner map.
- inline_ipld/src/ipld/inlined.rs:144 and inline_ipld/src/store/traits.rs:111 apply `.unwrap()` and `?` to `cid::new`. It returns a bare `Cid`, so this does not compile. They are modelled as the plain CID.
- The ternary `inline_ipld!` macro calls `cid::new`, which src/ does not define, and names its first two arguments the other way round from its own example. Builders.InlineMacro follows the example: codec first, then digester.
- Hashing.CidRules states only the codec half of the cid library's version-0 rule. The library also needs a 32-byte SHA2-256 digest there, but no accepted codec reaches that test.
- Builders.InlineIpldLink: ipld_inline/src/ipld.rs:138-149 accepts any codec `C` with `Ipld: Encode<C>`. The model's `Codec` holds only DAG-CBOR and DAG-JSON, so a codec that fails to encode (dag-pb always does) and the `.unwrap()` panic it causes are not modelled.
- Serde derives, the wasm crates, the property-test generators and the benchmark are not part of this model.
- Rust's borrowing, the `RefCell` around the tombstones and the `&mut` store references are modelled as values passed in and returned.
