# Verified model of Fuzztruction-Net's core state

Fuzztruction-Net fuzzes a network consumer by injecting faults into the producer of its input. This
project models the parts of it that hold state or do arithmetic, in Dafny 4.11, and proves what the
surrounding code relies on. `dafny verify dfyconfig.toml` checks everything.

Six components, each in files of its own:

- **Mutation cache.** `MutationCacheEntry` is the byte layout of one entry: sizes, alignment, padding,
  cloning with a new mask. `CacheSpec` is the abstract state machine of the cache and its theorems over
  all runs. `CacheLayout` relates descriptor table and memory to that state. `MutationCacheContent` is
  the class with the real table and buffer, `CacheImage` its bytes, `MutationCache` the filter, union and
  serialisation operations on top, `MutationCacheOps` the fitting of a cache to a trace.
- **Coverage bitmap.** `BitmapSpec` holds maps as byte sequences, campaigns and their theorems, and the
  64-bit words; `SinkBitmap` holds the word-at-a-time loops, proved against it.
- **Tracing.** `Tracing` is the agent's slot array with its binary search and counters, `Trace` the
  scheduler's view; `Sorting` is shared.
- **Sink protocol.** `Sink` is a step relation of sink, forkserver and child over the two pipes,
  `SinkResults` is about what its calls return.
- **Aux stream.** `AuxStream` cuts strings into UTF-16 chunks and puts them together again.
- **Coverage over time and bit sets.** `ComputeCoverage` and `FiniteIntegerSet`.

`Counterexamples` holds inputs on which the conditions listed below fail.

Panics and error returns of the source are results here: `None`, `false` or an error constructor, and
contracts say exactly when they occur. Several things one would expect of the code hold only under a
condition. Those are stated as equivalences, with a condition that can be evaluated before the call, and
each has an input on which it fails:

- `retain` and everything built on it is a filter exactly if entries that share an id share their fate.
- A union, and the resizing of masks, keeps every entry exactly if the pushed entries fit, because
  refused pushes are ignored.
- `clone_with_new_msk` reserves `size()` bytes exactly if the length modulo eight plus the target's
  bytes stay below sixteen; `new` stays inside its allocation under a similar condition.
- `classify_counts` is idempotent exactly on maps without counts from 3 to 31.
- A spawn is safe from taking a stale status for a pid exactly if all words of earlier requests were
  read. The error path after an unacknowledged kill, reachable from a fresh sink, violates this
  (`Sink.LostChildIsReachable`).

Where comments and code differ, the model follows the code: `resize_covered_entries_wo_msk`
(scheduler/src/mutation_cache_ops.rs:81-101) is documented to skip entries that have a mask already but has the body of
`resize_covered_entries`, so one model stands for both.

## Model

| member | source | states |
|---|---|---|
| CacheSpec.RunKeepsInv | fuzztruction_shared/src/mutation_cache_content.rs:65-227 | Over every run of push, remove, consolidate and clear: live bytes fit below the high-water mark, which fits the buffer (so the space left never underflows), and the slots emptied by removals never outnumber the pending deletions, at most 500. |
| CacheSpec.RefusedOnlyWhenNearlyFull | fuzztruction_shared/src/mutation_cache_content.rs:138-155 | In every reachable state a push that fits in bytes is refused only when at least 200000 - 500 entries are live. |
| CacheSpec.RunIsPlain | fuzztruction_shared/src/mutation_cache_content.rs:138-227 | Compaction is invisible: after any run, however often it compacted, the live entries are those of a plain list where push appends and remove drops the first match. |
| CacheSpec.StepKeepsInv | fuzztruction_shared/src/mutation_cache_content.rs:95-227 | Every single operation keeps the byte and slot accounting and the capacity. |
| MutationCacheContentModel.Replay | fuzztruction_shared/src/mutation_cache_content.rs:65-227 | Refinement over whole runs: executing any operation list on the real table and buffer keeps the layout well formed and ends in the state of the abstract run. |
| CacheSpec.RepackFits | fuzztruction_shared/src/mutation_cache_content.rs:181-195 | Compaction never loses an entry: clearing and pushing everything back is accepted entry by entry and ends with the high-water mark at the sum of the live sizes. |
| CacheLayout.LiveRegionsDisjoint | fuzztruction_shared/src/mutation_cache_content.rs:104-136 | What the layout invariant means: entries of different slots share no byte, start at multiples of eight, end below the high-water mark, and offsets grow with the slot index. The result behind it is that Replay keeps the invariant over every run. |
| CacheLayout.LiveAreEntries | fuzztruction_shared/src/mutation_cache_content.rs:104-136 | Everything read through the descriptor table is a complete entry whose id and size are the ones stored in its header. |
| CacheLayout.PushFrame | fuzztruction_shared/src/mutation_cache_content.rs:158-170 | The bytes copied in by a push read back as the pushed entry, and every entry stored below is read as before. |
| CacheLayout.PushPlaced | fuzztruction_shared/src/mutation_cache_content.rs:138-174 | Writing an entry at the high-water mark and taking the next descriptor keeps the layout and appends exactly that entry to the live sequence. |
| CacheLayout.PushView | fuzztruction_shared/src/mutation_cache_content.rs:138-174 | Push on table and memory is push on the abstract state, saturating slot index included. |
| CacheLayout.RemoveFromRow | fuzztruction_shared/src/mutation_cache_content.rs:201-216 | Emptying the slot of the first match removes the first match from the live sequence, also with repeated ids. |
| CacheLayout.RemoveView | fuzztruction_shared/src/mutation_cache_content.rs:201-219 | Emptying a slot keeps layout and budget and is the abstract removal before any compaction. |
| CacheLayout.RemoveSlot | fuzztruction_shared/src/mutation_cache_content.rs:148-155 | Only emptying the last slot of a full table makes a descriptor available again. |
| CacheLayout.ClearedView | fuzztruction_shared/src/mutation_cache_content.rs:65-100 | An all-empty table over any memory is the empty cache. |
| CacheLayout.WritePlaced | fuzztruction_shared/src/mutation_cache_entry.rs:294-298 | A write into one stored entry changes that entry only; all other entries and the whole layout stay. |
| CacheLayout.WriteView | fuzztruction_shared/src/mutation_cache_entry.rs:228-249 | A write to flags, mask or padding through an entry reference keeps the cache invariant and replaces one element of the entry sequence. |
| CacheLayout.MaskWriteKeepsPadding | fuzztruction_shared/src/mutation_cache_entry.rs:294-315 | A mask write changes that mask byte and leaves padding and metadata alone. |
| CacheLayout.MaskWritesKeepPadding | fuzztruction_shared/src/mutation_cache_entry.rs:294-315 | After any sequence of mask writes the overflow padding, mask length, id and metadata are what they were. |
| CacheLayout.LoadView | fuzztruction_shared/src/mutation_cache.rs:385-395 | Descriptor table and the bytes below the high-water mark determine the state; memory of another size changes nothing but the capacity. |
| MutationCacheContentModel.MutationCacheContent.constructor | fuzztruction_shared/src/mutation_cache_content.rs:65-76 | On zeroed memory of the given size: the empty cache, well formed, with all bytes behind the table as capacity. |
| MutationCacheContentModel.MutationCacheContent.SpaceLeft | fuzztruction_shared/src/mutation_cache_content.rs:84-86 | Capacity minus high-water mark, which is never negative. |
| MutationCacheContentModel.MutationCacheContent.TotalUsedBytes | fuzztruction_shared/src/mutation_cache_content.rs:91-93 | Header, table and used payload, never more than the backing memory. |
| MutationCacheContentModel.MutationCacheContent.Clear | fuzztruction_shared/src/mutation_cache_content.rs:95-100 | The empty state with the deletion counter kept, from any ordered layout, even with too many emptied slots. |
| MutationCacheContentModel.MutationCacheContent.Entries | fuzztruction_shared/src/mutation_cache_content.rs:104-136 | The loop over the table yields exactly the abstract entry sequence, in slot order. |
| MutationCacheContentModel.MutationCacheContent.Push | fuzztruction_shared/src/mutation_cache_content.rs:138-174 | Accepted exactly when bytes and a free descriptor are available; then appended at the old high-water mark; otherwise nothing changes. |
| MutationCacheContentModel.MutationCacheContent.Append | fuzztruction_shared/src/mutation_cache_content.rs:145-170 | Descriptor, copy and counters together are the abstract push. |
| MutationCacheContentModel.MutationCacheContent.Consolidate | fuzztruction_shared/src/mutation_cache_content.rs:181-195 | Same entries in the same order, packed without gaps. |
| MutationCacheContentModel.MutationCacheContent.FindSlot | fuzztruction_shared/src/mutation_cache_content.rs:201-212 | The first slot whose entry carries the id; none only if no live entry does. |
| MutationCacheContentModel.MutationCacheContent.Remove | fuzztruction_shared/src/mutation_cache_content.rs:201-227 | Drops the first match and compacts on the 501st pending deletion; fails exactly on an absent id. |
| MutationCacheContentModel.MutationCacheContent.Write | fuzztruction_shared/src/mutation_cache_entry.rs:294-298 | Writing through a reference into a stored entry replaces that entry in the sequence and nothing else. |
| MutationCacheContentModel.MutationCacheContent.PushEntries | fuzztruction_shared/src/mutation_cache_content.rs:192-194 | Pushing a list while ignoring refusals is the fold of the abstract push. |
| CacheSpec.DropRejected | fuzztruction_shared/src/mutation_cache.rs:448-456 | Removing the first match for each rejected id, one by one, never misses and leaves the order-preserving filter, with or without repeated ids. |
| CacheSpec.WhitelistFilters | fuzztruction_shared/src/mutation_cache.rs:448-456 | The same through all compactions in between, and no removal raises the bytes or slots in use. |
| CacheSpec.RemoveAllEntries | fuzztruction_shared/src/mutation_cache.rs:455-455 | A removal loop that may compact anywhere acts on the entries like plain first-match removals. |
| CacheSpec.RemoveAllSettled | fuzztruction_shared/src/mutation_cache_content.rs:201-227 | Closed form of any loop of successful removals: which deletion count, high-water mark and slot count it leaves follows from the state before and the place of the last compaction (every 501st pending deletion). |
| CacheSpec.DropRejectedPrefix | fuzztruction_shared/src/mutation_cache.rs:448-456 | The loop takes the rejected entries from front to back, also when ids repeat, so what is there at a compaction is known. |
| CacheSpec.WhitelistSurvivors | fuzztruction_shared/src/mutation_cache.rs:448-456 | The whole state after whitelisting, computed from the state before without simulating a removal. |
| CacheSpec.RetainIsFilter | fuzztruction_shared/src/mutation_cache.rs:463-472 | `retain` is the filter its caller asked for if and only if entries with equal ids get equal answers; with unique ids, always. |
| CacheSpec.ChosenByPredicate | fuzztruction_shared/src/mutation_cache.rs:467-469 | Answers of a predicate, entry by entry, select the filter by that predicate. |
| CacheSpec.ChosenFirstN | fuzztruction_shared/src/mutation_cache.rs:551-562 | The answers of the countdown predicate select the first `max` entries. |
| MutationCacheModel.MutationCache.constructor | fuzztruction_shared/src/mutation_cache.rs:292-313 | A fresh empty cache over the given number of bytes. |
| MutationCacheModel.MutationCache.RetainWhitelisted | fuzztruction_shared/src/mutation_cache.rs:448-456 | Leaves exactly the entries with whitelisted ids, in order; none of its removals can panic. |
| MutationCacheModel.MutationCache.RemoveIds | fuzztruction_shared/src/mutation_cache.rs:455-455 | The removal loop, every id found when its turn comes. |
| MutationCacheModel.MutationCache.Retain | fuzztruction_shared/src/mutation_cache.rs:463-472 | For a stateful predicate given by its answers: the chosen entries if and only if the answers depend on the id alone. |
| MutationCacheModel.MutationCache.RetainMatching | fuzztruction_shared/src/mutation_cache.rs:463-472 | For a predicate on entries: its order-preserving filter if and only if it does not tell entries of one id apart. |
| MutationCacheModel.MutationCache.PurgeNopEntries | fuzztruction_shared/src/mutation_cache.rs:477-483 | Leaves the entries with a non-zero mask byte, under the exact condition of `retain`. |
| MutationCacheModel.EffectiveMeaning | fuzztruction_shared/src/mutation_cache.rs:479-479 | What it keeps: entries with a non-zero byte between header and padding. |
| MutationCacheModel.MutationCache.RemoveByLocationType | fuzztruction_shared/src/mutation_cache.rs:543-546 | Leaves the entries with another location type, under the exact condition of `retain`. |
| MutationCacheModel.ElsewhereMeaning | fuzztruction_shared/src/mutation_cache.rs:543-546 | What it keeps: entries whose spill slot starts with another type. |
| MutationCacheModel.MutationCache.Limit | fuzztruction_shared/src/mutation_cache.rs:551-562 | Leaves the first min(max, len) entries if and only if no kept id occurs among the dropped ones. |
| MutationCacheModel.CollectRejected | fuzztruction_shared/src/mutation_cache.rs:449-454 | The ids to remove, one for each entry that is not whitelisted. |
| MutationCacheModel.ChooseFirst | fuzztruction_shared/src/mutation_cache.rs:552-560 | The countdown says yes exactly to the first `max` entries. |
| CacheSpec.PushAllFits | fuzztruction_shared/src/mutation_cache.rs:501-503 | Pushing a list with refusals ignored: all of it arrives, in order, if and only if its bytes and slots fit beforehand. |
| CacheSpec.UnionEntries | fuzztruction_shared/src/mutation_cache.rs:497-504 | Survivors first and the other cache behind them, if and only if the other cache fits into the closed-form state that the removals leave; fitting before the removals is enough. |
| CacheSpec.UnionOverrides | fuzztruction_shared/src/mutation_cache.rs:497-504 | As a map from id to entry, that result is the old map overridden by the other cache. |
| MutationCacheModel.MutationCache.UnionAndReplace | fuzztruction_shared/src/mutation_cache.rs:497-504 | The cache becomes the union state of the two caches and holds survivors and then all other entries if and only if those fit; the other cache is unchanged. |
| MutationCacheModel.MutationCache.SaveBytes | fuzztruction_shared/src/mutation_cache.rs:397-403 | The bytes of counters, table and live payload, exactly as many as those take, which decode to a well-formed packed cache with the same entries; the saved cache itself is packed. |
| MutationCacheModel.MutationCache.LoadBytes | fuzztruction_shared/src/mutation_cache.rs:385-395 | Panics exactly on more bytes than there is memory. Whatever the bytes are, the fields are then those of the bytes in front of the untouched rest of memory, with the size set anew; bytes of a well-formed cache give its state at the capacity of this one. |
| MutationCacheModel.MutationCache.ContentSliceIsImage | fuzztruction_shared/src/mutation_cache.rs:135-141 | The backing memory decodes to exactly the fields of the cache. |
| CacheImage.ImageRoundTrip | fuzztruction_shared/src/mutation_cache_content.rs:17-36 | Counters, flag, descriptor table and payload survive being written as bytes and read back. |
| CacheImage.ImageLayout | fuzztruction_shared/src/mutation_cache_content.rs:17-36 | Which bytes hold which counter, the flag and the payload. |
| CacheImage.SlotLayout | fuzztruction_shared/src/mutation_cache_content.rs:17-36 | Which bytes hold which descriptor. |
| CacheImage.TableRoundTrip | fuzztruction_shared/src/mutation_cache_content.rs:12-36 | So does a descriptor table of any length. |
| CacheImage.ImageOfLonger | fuzztruction_shared/src/mutation_cache.rs:385-395 | Bytes behind an image only extend its payload. |
| CacheImage.PrefixImage | fuzztruction_shared/src/mutation_cache.rs:397-403 | The bytes in use alone decode to a well-formed cache with the same entries. |
| CacheImage.LoadedImage | fuzztruction_shared/src/mutation_cache.rs:385-395 | An image in front of any leftover bytes decodes to the same entries, with the capacity of the whole memory. |
| MutationCacheModel.MutationCache.ReplaceContent | fuzztruction_shared/src/mutation_cache.rs:423-442 | Fails exactly on a larger cache and then changes nothing; otherwise takes over the other state at its own capacity. |
| MutationCacheModel.MutationCache.Transfer | fuzztruction_shared/src/mutation_cache.rs:385-403 | Round trip: save here, load there succeeds exactly if the packed entries fit, and gives the same entries, packed and well formed. |
| MutationCacheModel.MutationCache.TotalMskLen | fuzztruction_shared/src/mutation_cache.rs:582-588 | The sum of the mask lengths of all live entries. |
| MutationCacheEntry.DecodeEncode | fuzztruction_shared/src/mutation_cache_entry.rs:12-40 | Little-endian fields survive being written and read back. |
| MutationCacheEntry.EncodeAt | fuzztruction_shared/src/mutation_cache_entry.rs:8-30 | Byte i of a field is digit i of its value to the base 256. |
| MutationCacheEntry.FieldsOfSlice | fuzztruction_shared/src/mutation_cache_entry.rs:115-128 | Id, mask length, target width and size depend on the header bytes alone, wherever they lie in memory. |
| MutationCacheEntry.SizeAt | fuzztruction_shared/src/mutation_cache_entry.rs:257-273 | The size is a multiple of eight that leaves room behind header and mask. |
| MutationCacheEntry.SizeIsTight | fuzztruction_shared/src/mutation_cache_entry.rs:257-273 | An entry ends at the next multiple of eight behind its header, or behind mask and padding if it has a mask. |
| MutationCacheEntry.ChunkIsTargetBytes | fuzztruction_shared/src/mutation_cache_entry.rs:325-357 | Where the chunk size is defined it is the number of bytes of the target value. |
| MutationCacheEntry.ChunkSizeDefined | fuzztruction_shared/src/mutation_cache_entry.rs:325-357 | Which instructions and widths have a chunk size, and which panic. |
| MutationCacheEntry.TargetBytesHoldBits | fuzztruction_shared/src/mutation_cache_entry.rs:196-202 | The target bytes are as few as hold the target bits. |
| MutationCacheEntry.MaskThenPadding | fuzztruction_shared/src/mutation_cache_entry.rs:294-315 | Header, mask and overflow padding lie one behind the other. |
| MutationCacheEntry.NewFillStaysInside | fuzztruction_shared/src/mutation_cache_entry.rs:56-109 | The zero fill of mask plus eight bytes stays inside the allocation if and only if the mask is empty or eight-aligned, or mask remainder plus target bytes reach eight. |
| MutationCacheEntry.NewEntryFields | scheduler/src/mutation_site.rs:243-254 | The entry built for a mutation site is well formed, carries id, instruction, address, flags, spill slot and target width where readers expect them, a zero read position, and no mask. |
| MutationCacheEntry.CloneWithNewMsk | fuzztruction_shared/src/mutation_cache_entry.rs:130-171 | Panics exactly on a length of zero or above 64 MiB; otherwise zeroed memory, truncated copy and patched length give the specified clone. |
| MutationCacheEntry.CloneAt | fuzztruction_shared/src/mutation_cache_entry.rs:148-169 | The clone byte by byte: new length field, copied header and mask prefix, zeros behind. |
| MutationCacheEntry.CloneCovers | fuzztruction_shared/src/mutation_cache_entry.rs:130-171 | The clone has at least `size()` bytes if and only if new length modulo eight plus target bytes stay below sixteen; targets of up to eight bytes always satisfy this. |
| MutationCacheEntry.AllocVersusSize | fuzztruction_shared/src/mutation_cache_entry.rs:140-148 | The arithmetic behind it: fixed padding of eight against padding by the target width, both rounded up. |
| MutationCacheEntry.CloneHeader | fuzztruction_shared/src/mutation_cache_entry.rs:150-170 | All metadata except the mask length is preserved. |
| MutationCacheEntry.ResizedKeepsMask | fuzztruction_shared/src/mutation_cache_entry.rs:130-171 | A pushed clone that covers its size has the old mask as far as it fits, zeros behind it, and zero overflow padding. |
| MutationCacheOps.FitEntries | scheduler/src/mutation_cache_ops.rs:53-79 | Dropping uncovered sites and resizing the rest leaves exactly the covered entries in order, each with a mask of hits times the bytes of its target value and with masks that add up to the sum of these products, if and only if the resized entries fit into the closed-form state that the removals leave; fitting beforehand is enough. |
| MutationCacheOps.FitToTrace | scheduler/src/mutation_cache_ops.rs:53-79 | The two methods called in sequence reach that state, with those mask lengths, under that condition, or panic exactly when a covered site has no chunk size or its mask would be empty or above 64 MiB. |
| MutationCacheOps.ResizeEntries | scheduler/src/mutation_cache_ops.rs:59-79 | On its own, resizing moves the covered entries behind the uncovered ones, each fitted to the trace, none lost, if and only if they fit. |
| MutationCacheOps.ResizeCoveredEntries | scheduler/src/mutation_cache_ops.rs:59-79 | The three loops perform the abstract resize; the panic happens before the cache is touched. |
| MutationCacheOps.CollectResized | scheduler/src/mutation_cache_ops.rs:62-68 | The first loop yields the resized clones of the covered entries in order, or panics exactly if one of them has no chunk size or would get an empty or too long mask. |
| MutationCacheOps.ResizeOne | scheduler/src/mutation_cache_ops.rs:64-65 | One clone with a mask of hits times the bytes of the target value; panics exactly if there is no chunk size or that product is zero or above 64 MiB. |
| MutationCacheOps.ResizedIds | scheduler/src/mutation_cache_ops.rs:70-72 | The ids removed by the second loop are those of the covered entries in order, so none of its removals panics. |
| MutationCacheOps.ResizedFitsTrace | scheduler/src/mutation_cache_ops.rs:64-65 | Each resized entry keeps id, metadata and mask prefix, has hits times the bytes of its target value as mask, and zeros in the rest and in the padding. |
| MutationCacheOps.AllCovered | scheduler/src/mutation_cache_ops.rs:59-79 | When the trace covers every entry, every entry is fitted and the masks take the sum of the products. |
| MutationCacheOps.ResizedOfCovered | scheduler/src/mutation_cache_ops.rs:62-68 | What is resized depends on the covered entries only. |
| MutationCacheOps.MasksAddUp | scheduler/src/mutation_cache_ops.rs:64-65 | Conservation: total mask length after resizing is the sum of hits times target bytes over the trace. |
| MutationCacheOps.RemoveUncovered | scheduler/src/mutation_cache_ops.rs:53-57 | Leaves exactly the covered entries, in order, even with repeated ids. |
| MutationCacheOps.TracesAreInRange | scheduler/src/trace.rs:17-39 | Whatever statistics a trace is made of, its hit counts stay within the limit, so hits times chunk size fits 32 bits. |
| MutationCacheOps.FromPatchpoints | scheduler/src/mutation_cache_ops.rs:40-51 | One maskless entry per site, in order, each with the site's id, instruction, address, spill slot and target width; panics exactly when the entries do not all fit a fresh cache. |
| MutationCacheOps.EntryOf | scheduler/src/mutation_site.rs:243-254 | The entry of a site reads back as the site, with no flags, no mask and read position zero. |
| MutationCacheOps.PushUnwrapped | scheduler/src/mutation_cache_ops.rs:45-48 | The push loop with unwrap succeeds exactly when all entries fit. |
| BitmapSpec.VirginIsComplement | scheduler/src/sink_bitmap.rs:196-228 | Over any sequence of maps fed to a fresh virgin map, the virgin map is exactly the complement of the set of (edge, bucket) pairs seen. |
| BitmapSpec.FeedRemovesSeen | scheduler/src/sink_bitmap.rs:196-228 | From any virgin map: a pair is left if and only if it was there and no input had it. |
| BitmapSpec.VerdictMeaning | scheduler/src/sink_bitmap.rs:196-228 | NewEdge if and only if the input touches an edge no earlier input touched, NewHit if and only if it has a new pair but no new edge, NoChange if and only if it has no new pair. |
| BitmapSpec.UntouchedIsFull | scheduler/src/sink_bitmap.rs:212-218 | A virgin byte is 0xff if and only if no input ever touched that edge. |
| BitmapSpec.ChangesAreBounded | scheduler/src/sink_bitmap.rs:196-228 | In any campaign the reported changes are at most the bits used up (at most 8 * size), the new edges at most the bytes first touched (at most size). |
| BitmapSpec.OrderIsIrrelevant | scheduler/src/sink_bitmap.rs:196-228 | The final virgin map depends on which inputs were fed, not on order or repetition. |
| BitmapSpec.RepeatIsNoChange | scheduler/src/sink_bitmap.rs:196-228 | An input that was fed before is NoChange, whatever came in between. |
| BitmapSpec.WordsMeet | scheduler/src/sink_bitmap.rs:206-208 | Two 64-bit words share a bit if and only if two corresponding bytes do. |
| BitmapSpec.WordMinus | scheduler/src/sink_bitmap.rs:221-224 | Clearing bits in a word clears them byte by byte. |
| BitmapSpec.WordOr | scheduler/src/sink_bitmap.rs:323-349 | The union of two words is the union of their bytes. |
| BitmapSpec.StatusStep | scheduler/src/sink_bitmap.rs:205-226 | One more word turns the verdict of the prefix into the verdict of the longer prefix, the shortcut for an already found edge included. |
| BitmapSpec.BucketIsOneBit | scheduler/src/sink_bitmap.rs:19-20 | A classified hit count is exactly one bucket bit, and none only for a count of zero. |
| BitmapSpec.ClassifiedBits | scheduler/src/sink_bitmap.rs:19-20 | A classified byte has the bit of a bucket exactly if the hit count lies in that bucket: 1, 2, 3, 4 to 7, 8 to 15, 16 to 31, 32 to 127, 128 and more. |
| BitmapSpec.SeenCounts | scheduler/src/sink_bitmap.rs:196-244 | A pair was seen by a campaign of classified maps exactly if some raw hit count of the edge lay in the bucket. |
| BitmapSpec.CampaignOnCounts | scheduler/src/sink_bitmap.rs:196-244 | The verdicts in terms of raw hit counts: NewEdge if and only if an edge is hit for the first time, NewHit if and only if only a hit count falls into a new bucket of its edge. |
| BitmapSpec.LookupTells | scheduler/src/sink_bitmap.rs:21-31 | What a table entry says about both hit counts of its pair. |
| BitmapSpec.LookupBuckets | scheduler/src/sink_bitmap.rs:21-31 | One lookup in the 65536-entry table buckets both bytes of a pair. |
| BitmapSpec.ClassifiedTwice | scheduler/src/sink_bitmap.rs:231-244 | Classifying twice equals classifying once if and only if no count lies in 3..31. |
| BitmapSpec.ClassifyingKeepsEdges | scheduler/src/sink_bitmap.rs:149-171 | The number of bytes set is the same before and after classification. |
| BitmapSpec.ClassifyingKeepsMinimized | scheduler/src/sink_bitmap.rs:294-316 | Minimized map and edge list are the same before and after classification. |
| BitmapSpec.MinimizedCountsEdges | scheduler/src/sink_bitmap.rs:294-306 | The bits set in the minimized map are as many as the bytes set in the original. |
| BitmapSpec.MinimizedAt | scheduler/src/sink_bitmap.rs:294-306 | Edge i of the large map is bit i % 8 of byte i / 8 of the small one. |
| BitmapSpec.MinimizeDistributesOverOr | scheduler/src/sink_bitmap.rs:294-349 | Minimizing a union is the union of the minimized maps, for maps of any two sizes. |
| BitmapSpec.EdgesAscend | scheduler/src/sink_bitmap.rs:308-316 | The edge list is strictly ascending and names exactly the non-zero bytes. |
| SinkBitmap.BuildLookup | scheduler/src/sink_bitmap.rs:21-31 | The two nested loops fill the table with the buckets of both bytes. |
| SinkBitmap.Bitmap.constructor | scheduler/src/sink_bitmap.rs:83-95 | A map of the given power-of-two size, every byte the fill pattern. |
| SinkBitmap.Bitmap.HasNewBit | scheduler/src/sink_bitmap.rs:196-228 | The word loop returns the byte-wise verdict and leaves the virgin map minus this map, for maps of any two sizes. |
| SinkBitmap.Bitmap.ChunkStep | scheduler/src/sink_bitmap.rs:205-226 | One iteration advances verdict and virgin map by eight bytes. |
| SinkBitmap.FeedAll | scheduler/src/sink_bitmap.rs:196-228 | A whole campaign of calls yields the verdicts and the virgin map of the specification. |
| SinkBitmap.Bitmap.ClassifyCounts | scheduler/src/sink_bitmap.rs:231-244 | Every hit count is replaced by the bit of the bucket it lies in, empty words skipped. |
| SinkBitmap.Bitmap.CountBytesSet | scheduler/src/sink_bitmap.rs:149-171 | The number of non-zero bytes, counted by masks on words. |
| SinkBitmap.Bitmap.CountBitsSet | scheduler/src/sink_bitmap.rs:173-181 | The number of set bits, counted word by word. |
| SinkBitmap.Bitmap.Minimize | scheduler/src/sink_bitmap.rs:294-306 | One bit per non-zero byte; panics exactly on maps under 64 bytes. |
| SinkBitmap.Bitmap.Edges | scheduler/src/sink_bitmap.rs:308-316 | The ascending indices of non-zero bytes, as many as there are bytes set. |
| SinkBitmap.Bitmap.BitOr | scheduler/src/sink_bitmap.rs:323-349 | Byte-wise union over the common length, zero beyond. |
| TraceModel.ExecOrderIsFirstHitOrder | scheduler/src/trace.rs:53-57 | Whatever order the hash set yields, sorting by execution order gives exactly the ids hit 1 to 16384 times in order of first hit. |
| TraceModel.TraceRun | generator/agent/src/agent.rs:345-436 | Agent and scheduler together: for any run, cut off at the first unregistered id, the trace and its order are those of this run alone, and the agent is back in its initial state. |
| TraceModel.TraceOfRun | scheduler/src/trace.rs:17-61 | The trace covers exactly the ids hit 1 to 16384 times, with their hit counts and first positions. |
| TraceModel.FromTracePointStats | scheduler/src/trace.rs:17-39 | The loop builds the trace of the messages. |
| TraceModel.CoveredIffUsable | scheduler/src/trace.rs:17-39 | For any messages: an id is covered if and only if it has a message within the hit limit and with an execution index. |
| TraceModel.LastMessageCounts | scheduler/src/trace.rs:17-39 | For any messages: hit count and order of an id are those of its last such message. |
| TraceModel.CoveredExecOrdered | scheduler/src/trace.rs:53-57 | The covered ids, each once, by ascending execution order. |
| TraceModel.TraceOfEntries | scheduler/src/trace.rs:17-39 | The same for every prefix of the slot array. |
| TraceModel.FirstHitsOrdered | generator/agent/src/tracing.rs:124-142 | Listing ids at their first occurrence lists them by ascending recorded order. |
| Tracing.SumIsLength | generator/agent/src/tracing.rs:124-142 | Conservation: the hit counters sum to the length of the run. |
| Tracing.OrdersDistinct | generator/agent/src/tracing.rs:136-140 | No two ids get the same order. |
| Tracing.RecordedSnoc | generator/agent/src/tracing.rs:136-141 | One more hit changes one counter and, the first time only, one order. |
| Tracing.FirstHit | generator/agent/src/tracing.rs:136-140 | One plus the index of the first occurrence, none if there is none. |
| Tracing.TraceMap.constructor | generator/agent/src/tracing.rs:53-61 | An unfinalized map without slots. |
| Tracing.TraceMap.Fork | generator/agent/src/agent.rs:350-352 | The child gets its own hit total and the same shared counters. |
| Tracing.TraceMap.AllocSlot | generator/agent/src/tracing.rs:63-65 | Adds the id to the set of registered ids. |
| Tracing.TraceMap.Finalize | generator/agent/src/tracing.rs:70-115 | One zeroed slot per newly registered id in ascending order in place of what was there; panics exactly if there was something, and nothing happens without new ids. |
| Tracing.TraceMap.Search | generator/agent/src/tracing.rs:133-134 | Binary search finds the slot of an id if and only if it was registered. |
| Tracing.TraceMap.ReportHit | generator/agent/src/tracing.rs:124-142 | In a child the slots go from those of the run to those of the run with one more hit; a parent changes nothing; panics exactly on an unregistered id. |
| Tracing.TraceMap.CountHit | generator/agent/src/tracing.rs:136-141 | Total, order and counter of one slot are those of the longer run. |
| Tracing.TraceMap.Reset | generator/agent/src/tracing.rs:145-163 | Back to the state of a new map. |
| Tracing.TraceMap.ResetHits | generator/agent/src/tracing.rs:166-173 | The slots of the empty run, ids kept. |
| Tracing.Run | generator/agent/src/agent.rs:345-436 | The messages are the statistics of exactly the reported part of this run, and the counters are clean again, also when the child died of an unregistered id. |
| Tracing.ReportedIds | generator/agent/src/tracing.rs:124-134 | The reported part is the whole run if and only if all its ids are registered; otherwise it ends right before the first other id. |
| Tracing.RunChild | generator/agent/src/agent.rs:350-377 | The child leaves the slots of the reported part of the run and survives if and only if that is all of it. |
| Tracing.Postprocess | generator/agent/src/agent.rs:418-436 | One message per id that was hit, in slot order, then all counters zero. |
| Sorting.SortIsUnique | scheduler/src/trace.rs:53-57 | There is only one listing of a set by strictly growing keys, so an unstable sort cannot change the result. |
| Sink.StatusesConsumedOnce | scheduler/src/sink.rs:819-1119 | In every interleaving of sink, forkserver and child without error returns, each status is consumed exactly once and in order, no spawn takes a stale word for a pid, and with no child the pipe is empty. |
| Sink.SpawnSafety | scheduler/src/sink.rs:833-864 | In every state reachable with errors as well, and for every continuation: the word a spawn reads is foreign if and only if the words of earlier requests were not all read before the call, and then a continuation that reads one exists. |
| Sink.SpawnReadsOwnPid | scheduler/src/sink.rs:833-864 | The same for one continuation: whatever the forkserver does meanwhile, the word read is the own pid exactly under that condition. |
| Sink.SpawnOverChild | scheduler/src/sink.rs:819-864 | In runs without errors that is exactly a spawn while there is a child. |
| Sink.SpawnAfterLostChild | scheduler/src/sink.rs:1084-1104 | After the error of an unacknowledged kill there is no recorded child, and the next spawn can take the old status for a pid. |
| Sink.LostChildIsReachable | scheduler/src/sink.rs:819-1119 | A failing case from the start: a fresh sink whose first child hangs and does not acknowledge the kill reaches that state, and the next spawn can go wrong. |
| Sink.FirstChild | scheduler/src/sink.rs:819-864 | A fresh sink can spawn its first child. |
| Sink.NextInStream | scheduler/src/sink.rs:819-1119 | Every step of either side keeps the pipe a window of the stream pid 1, status 1, pid 2, status 2, and so on. |
| Sink.RunInStream | scheduler/src/sink.rs:819-1119 | The same over every run, errors included. |
| Sink.OwnPidIff | scheduler/src/sink.rs:840-849 | A spawn reads its own pid if and only if two words per earlier request have been read. |
| Sink.NextOrderly | scheduler/src/sink.rs:819-1119 | Every step without an error return keeps the count of outstanding words and the record of collected statuses. |
| Sink.RunOrderly | scheduler/src/sink.rs:819-1119 | The same over every run without error returns. |
| Sink.AtRest | scheduler/src/sink.rs:985-1023 | With nothing outstanding the pipe is empty, the forkserver idle, and every child collected. |
| Sink.OnlyItsStatus | scheduler/src/sink.rs:985-1023 | With a child the pipe holds at most one word, and that is this child's exit status. |
| Sink.OrderlyIsCollected | scheduler/src/sink.rs:985-1119 | What the invariant says about collected statuses and an empty pipe. |
| Sink.RunDuringSpawn | scheduler/src/sink.rs:819-864 | Until a spawn has read its pid nothing else is read, whatever the other side does. |
| Sink.NextWordArrives | scheduler/src/sink.rs:840-842 | While a request is open the forkserver can always deliver its next word. |
| Sink.ForeignWord | scheduler/src/sink.rs:840-849 | From every state with unread words there is a continuation in which the spawn faces a foreign word. |
| SinkResults.ReadyExactly | scheduler/src/sink.rs:880-983 | In every run without error returns and for every step: a call returns Ready if and only if it has just consumed the (k+1)-th event of the configured kind of the current child with no status pending, and TimedOut if and only if it consumed the status of a child it killed; events of earlier children are never counted. |
| Sink.PollsAreCurrent | scheduler/src/sink.rs:892-932 | Every poll of the ready pipe consumes the current child's next event. |
| SinkResults.StatusIsReported | scheduler/src/sink.rs:985-1023 | In every run without error returns: a call that takes a status returns how the child of the last request ended, by the status that child exited with, and the recorded pid is the one the forkserver reported for that request. |
| Sink.ExitMeaning | scheduler/src/sink.rs:997-1018 | Exit codes are reported as such, signals by number, with or without a core dump; termination on request counts as exit code zero, signals without a name as number twelve. |
| Sink.StatusIsUnambiguous | scheduler/src/sink.rs:997-1021 | A status encodes an exit or a signal but not both, and a stop is neither. |
| SinkResults.StepTimesOut | scheduler/src/sink.rs:972-981 | Consuming the status of a killed child is the only step that returns TimedOut. |
| SinkResults.StepReady | scheduler/src/sink.rs:892-932 | Consuming the completing event is the only step that returns Ready. |
| SinkResults.StepEnds | scheduler/src/sink.rs:985-1023 | Taking a status by a poll is the only step that returns how a child ended. |
| SinkResults.StepErrs | scheduler/src/sink.rs:819-1119 | Exactly which steps return an error, and that only an unacknowledged kill in a termination wait drops the recorded child. |
| SinkResults.StepSpawns | scheduler/src/sink.rs:842-863 | A spawn records the word it reads if that is positive. |
| SinkResults.TimedOutAfterAllWaits | scheduler/src/sink.rs:1045-1104 | In every run a child is killed only after all waits its call granted have timed out. |
| SinkResults.StepWaits | scheduler/src/sink.rs:1045-1061 | A call grants one wait, or two if the child is asked to terminate first. |
| SinkResults.NextLogged | scheduler/src/sink.rs:840-849 | Every step keeps the words in the pipe true: the pids reported and the statuses exited with, by child. |
| Sink.StatusFirst | scheduler/src/sink.rs:889-891 | In every run without error returns, a pending exit status is reported before any pending ready event, is the current child's, and is reported by its meaning. |
| Sink.RunCounted | scheduler/src/sink.rs:819-932 | Over every such run the counters are the numbers of listen and bind events seen since the last spawn, and what was seen and what waits is together what the child emitted. |
| Sink.NextCounted | scheduler/src/sink.rs:819-932 | Every step keeps that. |
| Sink.CountedPollsReady | scheduler/src/sink.rs:892-932 | One poll consumes the child's next event and reports ready exactly if it completes the condition. |
| AuxStream.RoundTrip | fuzztruction_shared/src/aux_stream.rs:30-141 | For every non-empty string, wherever chunk boundaries fall: all messages but the last ask for more, the last returns the string, the assembler is empty again. |
| AuxStream.StreamsInSequence | fuzztruction_shared/src/aux_stream.rs:30-141 | Any list of strings of any stream types sent back to back: the non-empty ones are delivered in order with their types, with nothing left over. |
| AuxStream.StreamInFront | fuzztruction_shared/src/aux_stream.rs:96-141 | A complete stream in front of any other messages is delivered and does not influence what follows. |
| AuxStream.DecodeEncode | fuzztruction_shared/src/aux_stream.rs:30-141 | UTF-16 encoding followed by the lossy decoder is the identity on all strings of scalar values (sections 2.1 and 2.2 of RFC 2781). |
| AuxStream.EncodedScalar | fuzztruction_shared/src/aux_stream.rs:30-33 | One unit for the basic plane, otherwise a high and a low surrogate of ten bits each (section 2.1 of RFC 2781). |
| AuxStream.LossyExactly | fuzztruction_shared/src/aux_stream.rs:134-138 | Decoding arbitrary units loses something if and only if there is an unpaired surrogate. |
| AuxStream.LoneSurrogate | fuzztruction_shared/src/aux_stream.rs:134-138 | An unpaired surrogate becomes U+FFFD and nothing else is affected. |
| AuxStream.JoinedChunks | fuzztruction_shared/src/aux_stream.rs:34-43 | Cutting into chunks of 256 units and joining again is the identity, also through surrogate pairs. |
| AuxStream.ChunksAt | fuzztruction_shared/src/aux_stream.rs:31-34 | Chunk i is units 256 i up to 256 i + 255, or to the end. |
| AuxStream.ChunksCount | fuzztruction_shared/src/aux_stream.rs:31-34 | As few chunks as possible. |
| AuxStream.UnitsOfBytes | fuzztruction_shared/src/aux_messages.rs:47-59 | Little-endian bytes of 16-bit units read back as the units. |
| AuxStream.BytesAt | fuzztruction_shared/src/aux_messages.rs:47-59 | The low byte of a unit comes first. |
| AuxStream.NewMessage | fuzztruction_shared/src/aux_messages.rs:69-82 | The payload is what the message's chunk gives back, in a zeroed buffer of 512 bytes. |
| AuxStream.MessageFor | fuzztruction_shared/src/aux_stream.rs:34-43 | Message i of n carries chunk i and announces n - i - 1 more. |
| AuxStream.BuildStr | fuzztruction_shared/src/aux_stream.rs:30-45 | The messages of a string; none exactly for the empty string. |
| AuxStream.AuxStreamAssembler.ProcessStrMsg | fuzztruction_shared/src/aux_stream.rs:96-141 | Type mismatch and odd length are errors that empty the buffer, a last message delivers and empties it, any other message is kept. |
| AuxStream.ProcessedOutcome | fuzztruction_shared/src/aux_stream.rs:96-141 | When each of the four outcomes occurs, and that every one but waiting leaves an empty buffer. |
| AuxStream.AuxStreamAssembler.Reset | fuzztruction_shared/src/aux_stream.rs:90-92 | The buffer is empty. |
| AuxStream.AuxStreamAssembler.constructor | fuzztruction_shared/src/aux_stream.rs:84-88 | The buffer is empty. |
| AuxStream.ProcessedAt | fuzztruction_shared/src/aux_stream.rs:96-141 | What message n does when its predecessors are in the buffer. |
| AuxStream.GatheredPrefix | fuzztruction_shared/src/aux_stream.rs:119-131 | The buffered messages hold the joined chunks. |
| AuxStream.OddSpoilsAll | fuzztruction_shared/src/aux_stream.rs:119-131 | One buffered message of odd length makes the whole stream an error. |
| AuxStream.Gather | fuzztruction_shared/src/aux_stream.rs:119-131 | The loop over the buffer yields the joined units, or the error exactly if a message has an odd length. |
| ComputeCoverage.Analyze | lib/compute_coverage/src/main.rs:172-324 | From raw traces to both reports: the block list has exactly the covered blocks with their first appearance in the raw traces; rows ascend, each counts the blocks whose first appearance in the raw traces lies in its second, and the counts add up to the number of covered blocks. |
| ComputeCoverage.DeduplicationIsSound | lib/compute_coverage/src/main.rs:172-186 | For every trace list, however the sort arranges traces of the same time: one trace per distinct block list, ascending in time, each an earliest copy, and no block's first appearance moves. |
| ComputeCoverage.Deduplicate | lib/compute_coverage/src/main.rs:172-186 | The whole step on any trace list: one trace per distinct block list, ascending, each an earliest copy, no first appearance moved. |
| ComputeCoverage.DropDuplicates | lib/compute_coverage/src/main.rs:175-186 | Reverse and the pop/retain loop compute the first-of-each-list subsequence of the sorted traces. |
| ComputeCoverage.DeduplicatedShape | lib/compute_coverage/src/main.rs:175-186 | Kept traces are ascending and pairwise different in their blocks. |
| ComputeCoverage.DeduplicatedKeepsEarliest | lib/compute_coverage/src/main.rs:175-186 | Every trace has a kept copy that is no later. |
| ComputeCoverage.FirstAppearanceKept | lib/compute_coverage/src/main.rs:175-219 | First appearances are the same in both lists, in both directions. |
| ComputeCoverage.FirstSecond | lib/compute_coverage/src/main.rs:221-250 | A block is new in exactly one second: that of its first appearance. |
| ComputeCoverage.SortByTime | lib/compute_coverage/src/main.rs:173-173 | Ascending in time and a permutation of the input. |
| ComputeCoverage.CoveredBbs | lib/compute_coverage/src/main.rs:194-219 | Maps exactly the covered blocks to their earliest timestamp, in whatever order the traces come. |
| ComputeCoverage.AddTrace | lib/compute_coverage/src/main.rs:198-207 | One more trace lowers exactly the timestamps it has to. |
| ComputeCoverage.TsToBbsCovered | lib/compute_coverage/src/main.rs:221-233 | Maps exactly the seconds with a trace to the blocks covered in them. |
| ComputeCoverage.TsToNewCoveredBbs | lib/compute_coverage/src/main.rs:235-250 | A block is in the set of a second if and only if it is covered there and in no earlier second; so the sets are disjoint. |
| ComputeCoverage.NewIsFirst | lib/compute_coverage/src/main.rs:241-247 | Not among the blocks seen before means first covered in this second. |
| ComputeCoverage.CoverageOverTime | lib/compute_coverage/src/main.rs:276-324 | Covered blocks with their first appearance, and rows with positive counts in ascending order, adding up to the number of covered blocks. |
| ComputeCoverage.WriteRows | lib/compute_coverage/src/main.rs:301-307 | Empty seconds are skipped without changing the sum. |
| FiniteIntegerSetModel.SetOperations | scheduler/src/finite_integer_set.rs:181-292 | Byte-wise or, and, and-not are union, intersection and difference of the sets. |
| FiniteIntegerSetModel.OperationsStayInRange | scheduler/src/finite_integer_set.rs:181-292 | None of them sets a bit above the maximum. |
| FiniteIntegerSetModel.BytesAreCanonical | scheduler/src/finite_integer_set.rs:143-150 | Bytes are equal if and only if the sets are. |
| FiniteIntegerSetModel.BitSet | scheduler/src/finite_integer_set.rs:63-71 | Setting a bit adds its element and no other. |
| FiniteIntegerSetModel.BitCleared | scheduler/src/finite_integer_set.rs:73-79 | Clearing a bit removes its element and no other. |
| FiniteIntegerSetModel.FiniteIntegerSet.constructor | scheduler/src/finite_integer_set.rs:45-53 | The empty set over 0..=max. |
| FiniteIntegerSetModel.FiniteIntegerSet.Insert | scheduler/src/finite_integer_set.rs:63-71 | Adds the element and reports whether it was new; panics exactly above the maximum. |
| FiniteIntegerSetModel.FiniteIntegerSet.Remove | scheduler/src/finite_integer_set.rs:73-79 | Removes the element; panics exactly above the maximum. |
| FiniteIntegerSetModel.FiniteIntegerSet.Size | scheduler/src/finite_integer_set.rs:91-101 | The bit count is the cardinality. |
| FiniteIntegerSetModel.FiniteIntegerSet.Entries | scheduler/src/finite_integer_set.rs:108-118 | The set itself. |
| FiniteIntegerSetModel.FiniteIntegerSet.BitOr | scheduler/src/finite_integer_set.rs:181-200 | Union, in range. |
| FiniteIntegerSetModel.FiniteIntegerSet.BitAnd | scheduler/src/finite_integer_set.rs:214-233 | Intersection, in range. |
| FiniteIntegerSetModel.FiniteIntegerSet.Sub | scheduler/src/finite_integer_set.rs:273-292 | Difference, in range. |
| FiniteIntegerSetModel.FiniteIntegerSet.SymmDiff | scheduler/src/finite_integer_set.rs:81-85 | What is in exactly one of the two sets. |
| FiniteIntegerSetModel.FiniteIntegerSet.SubAssign | scheduler/src/finite_integer_set.rs:306-336 | Difference in place. |
| FiniteIntegerSetModel.FiniteIntegerSet.Equals | scheduler/src/finite_integer_set.rs:143-150 | Equal exactly if maximum and set are. |
| Counterexamples.RetainKeepsTwin | fuzztruction_shared/src/mutation_cache.rs:463-472 | Any two entries pushed under one id, answers yes and no: `retain` does not keep just the one it was told to keep. |
| Counterexamples.WideCloneFallsShort | fuzztruction_shared/src/mutation_cache_entry.rs:130-171 | For a load of 128 bits, every clone a trace can ask for is shorter than its own size. |
| Counterexamples.NewFillOverruns | fuzztruction_shared/src/mutation_cache_entry.rs:56-109 | `new` with one mask byte and a one-byte target fills past its allocation. |
| Counterexamples.UnionLosesEntry | fuzztruction_shared/src/mutation_cache.rs:497-504 | A cache that its one entry fills keeps it in a union, and the other entry is lost. |
| Counterexamples.ResizeLosesEntry | scheduler/src/mutation_cache_ops.rs:59-79 | A cache that its one entry fills is empty after resizing that entry. |
| Counterexamples.LoadIsResizable | scheduler/src/mutation_cache_ops.rs:59-79 | An eight-bit load that was hit once is such an entry. |
| Counterexamples.LoadEntry | scheduler/src/mutation_site.rs:243-254 | The well-formed maskless entries these use. |
| Counterexamples.ThreeIsBucketedAgain | scheduler/src/sink_bitmap.rs:231-244 | A map with a count of three changes when it is classified twice. |

## Left out

- Entry header layout: the sizes of `Location` and `LLVMInstruction` come from the crate llvm_stackmap, which is not part of this model; twelve bytes and one byte are assumed, as are the instruction codes. Only disjoint fields and a header size divisible by eight matter to the proofs.
- Descriptor layout: the bytes of an `Option` of a descriptor are chosen by the compiler; a tag and an offset of eight bytes each are assumed, zero standing for none.
- MutationCacheOps.FitEntries: requires that the clone of each covered entry covers its size, by the exact condition of MutationCacheEntry.CloneCovers; otherwise the source reads memory behind the clone, which is undefined.
- MutationCacheOps.FitToTrace: same precondition, for the same reason; hit counts within the trace limit, which every trace satisfies (MutationCacheOps.TracesAreInRange).
- MutationCacheOps.ResizeEntries: same precondition, for the same reason.
- MutationCacheOps.ResizeCoveredEntries: same precondition, for the same reason; hit counts within the trace limit, which every trace satisfies (MutationCacheOps.TracesAreInRange).
- MutationCacheOps.CollectResized: same precondition, for the same reason; hit counts within the trace limit, which every trace satisfies (MutationCacheOps.TracesAreInRange).
- MutationCacheOps.ResizeOne: same precondition, for the same reason; hit counts within the trace limit, which every trace satisfies (MutationCacheOps.TracesAreInRange).
- MutationCacheModel.MutationCache.LoadBytes: a descriptor tag other than zero and one, or a flag byte other than those, is undefined in the source and read as set here.
- Tracing.Run: requires what the source demands of callers of `finalize`, that a finalized map is reset before new slots are used; a child that reports an unregistered id panics, taken here as the end of that child.
- TraceModel.TraceRun: same as Tracing.Run.
- MutationCacheModel.MutationCache.Retain: the debug-build assertion on the resulting length is not modelled; it fails exactly when the stated condition does.
- Tracing.TraceMap.Fork: sharing the counters between processes is sharing one array; concurrent access by threads or grandchildren of the target is not modelled.
- Sink: the sink is a value stepped by a relation, so update in place is not captured; the peers act only in the ways the forkserver protocol allows, a kill signal only permits the child to exit, poll errors other than a timeout and failed pipe writes are not modelled, and a stop status counts as an error return instead of a panic.
- Machine integers: counters, offsets and sizes are unbounded; only the 16384-hit limit, the table and mask limits and byte, 16-bit and 64-bit words are modelled at their width.
- Backing memory: shared memory, mappings, forking, privileges and file clean-up are operating system calls.
- Flag setters, `from_iter`, `try_clone`, `save_bytes_unconsolidated`, `remove_const_type` and the other accessors of the cache: easy members on top of what is modelled.
- Word-wise and, xor and not of bitmaps, `hash32`, `sha256`: the first three have the loop of the union that is modelled, the others give no theorem worth stating.
- Random choice (`choose_random`, `get_sub_set`) of the bit set.
- Finding and reading traces in a work directory, the module filter, and the file formats of the reports.
- The just-in-time compiler, the rest of the agent, the compiler pass, configuration, scheduling queues and logging.
