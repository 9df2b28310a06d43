# Virtual desk layouts

A model of the `VirtualDesk` class of a virtual-desktop plugin for a Wayland
compositor. The model covers how the class remembers monitor layouts and how it
repairs them.

A virtual desk owns a list of *layouts*. Each layout maps a monitor descriptor
(the output's description string) to the workspace id shown on that monitor. One
layout is *active*. When the monitor configuration changes, the active choice is
marked stale. The next request then searches the stored layouts under a
remember-layout policy:

- `monitors`: the first layout whose monitors are all enabled;
- `size`: the first layout with as many entries as there are enabled monitors, repaired in place;
- `none`: forget everything.

When no stored layout qualifies, a fresh layout is generated. Desk `id` over `n`
enabled monitors gets workspaces `(id-1)*n+1 .. (id-1)*n+n`, in registry order.
When monitors disappear, the entries of the active layout that point at them are
moved to the least-loaded enabled monitor.

The project has four modules:

- `Registry` (`registry.dfy`) stands in for the compositor's monitor list. It is a
  sequence of `Monitor(description, enabled, windows)` records, with the enabled
  filter, the descriptor of an output and the least-loaded choice.
- `Layouts` (`layouts.dfy`) holds the pure specification of every repair and
  selection as functions, together with the lemmas about them.
- `VirtualDesks` (`virtual_desk.dfy`) holds the class `VirtualDesk`. Its fields
  are `layouts`, `activeIdx` and `activeIsValid`. Its methods mutate them in
  place, with the loops of the original, and each method is proved equal to the
  `Layouts` function that specifies it.
- `SetIntersection` (`set_intersection.dfy`) models the standard library merge
  that the `monitors` policy actually runs (see Findings).

Hash-map iteration order is unspecified. The method `IterationOrder` picks it
nondeterministically. Repairs whose outcome depends on the order return the
chosen order as a ghost result, and are specified by functions that take the
order as a parameter. The lemmas about those functions hold for every order.

## Model

| member | source | states |
|---|---|---|
| Registry.MonitorDesc | src/VirtualDesk.cpp:176-178 | defines an output's descriptor: its description, or the empty string when it has none |
| Registry.EnabledMonitors | src/VirtualDesk.cpp:170-174 | exactly the enabled registry records are kept, and no more records than the registry holds |
| Registry.EnabledMonitorsKeepOrder | src/VirtualDesk.cpp:170-174 | the filter keeps registry order: filtering a concatenation concatenates the filtered parts |
| Registry.Descs | src/VirtualDesk.cpp:176-178 | one descriptor per monitor, position by position; a monitor without a description gives the empty string |
| Registry.DescSet | src/VirtualDesk.cpp:149-153 | the set holds every monitor's descriptor and nothing that is not one |
| Registry.DescSetSize | src/VirtualDesk.cpp:149-153 | the set has at most one element per monitor, and exactly one per monitor when descriptors are distinct |
| Registry.LiveDescs | src/VirtualDesk.cpp:102-106 | defines the set of descriptors of the enabled monitors, against which stored keys are checked |
| Registry.LeastLoadedIndex | src/VirtualDesk.cpp:116-127 | the chosen monitor has no more windows than any other, and every earlier monitor has strictly more (the first minimum wins) |
| Registry.LeastLoadedUnique | src/VirtualDesk.cpp:119-125 | an index whose monitor has no more windows than any other, with every earlier monitor strictly more loaded, is the chosen one: the running minimum with strict `<` has exactly one answer |
| Registry.Target | src/VirtualDesk.cpp:109-110 | the monitor that receives a moved workspace is an enabled one |
| Registry.LeastLoadedExample | src/VirtualDesk.cpp:116-127 | with window counts 3, 0, 5 the second monitor is chosen |
| Layouts.Numbered | src/VirtualDesk.cpp:162-166 | the keys are exactly the given descriptors and every value lies in the `n` ids starting at the first one |
| Layouts.NumberedSize | src/VirtualDesk.cpp:162-166 | with distinct descriptors there is one entry per descriptor |
| Layouts.NumberedAt | src/VirtualDesk.cpp:162-166 | with distinct descriptors the j-th descriptor maps to first + j |
| Layouts.BlockStartValue | src/VirtualDesk.cpp:161 | the first workspace of desk `id` over `n` monitors is `(id-1)*n+1` |
| Layouts.BlocksOrdered | src/VirtualDesk.cpp:161-163 | the block of a lower desk id ends before the block of a higher one starts |
| Layouts.GenerateLayout | src/VirtualDesk.cpp:155-168 | defines the generated layout: the enabled monitors' descriptors, in registry order, numbered upwards from the desk's first workspace |
| Layouts.GenerateLayoutBlock | src/VirtualDesk.cpp:155-168 | a generated layout has a key for each enabled monitor and only those, and every id is in `[(id-1)*n+1, (id-1)*n+n]` |
| Layouts.GenerateLayoutAssigns | src/VirtualDesk.cpp:155-168 | with distinct descriptors the j-th enabled monitor, in registry order, gets `(id-1)*n+1+j` |
| Layouts.GenerateLayoutSize | src/VirtualDesk.cpp:155-168 | with distinct descriptors a generated layout has exactly `n` entries |
| Layouts.GeneratedDesksDisjoint | src/VirtualDesk.cpp:161-166 | two desks with different ids never share a generated workspace id |
| Layouts.SharedCount | src/VirtualDesk.cpp:36-38 | the count of keys that are enabled descriptors equals the number of keys exactly when every key is enabled |
| Layouts.Fits | src/VirtualDesk.cpp:26-64 | defines when a stored layout qualifies: under `monitors` every key is an enabled descriptor (the intent of :38), under `size` its entry count equals the number of enabled monitors (:51), under `none` never |
| Layouts.FirstFit | src/VirtualDesk.cpp:26-62 | the index found qualifies under the policy and no earlier layout does; none is found exactly when no layout qualifies |
| Layouts.FirstFitAt | src/VirtualDesk.cpp:29-45 | once every layout before `k` fails and the one at `k` qualifies, the first fit is `k` (none when `k` is the length) |
| Layouts.FirstFitMonitorsExample | src/VirtualDesk.cpp:26-45 | a stored layout over A, B is chosen while A, B and C are enabled: a subset of the enabled monitors suffices |
| Layouts.FirstUnused | src/VirtualDesk.cpp:136-143 | the result is an enabled descriptor that is not a key, and none exists exactly when every enabled descriptor is already a key |
| Layouts.FirstUnusedStep | src/VirtualDesk.cpp:136-143 | the search at position `j` returns that descriptor if it is not a key, and otherwise goes on to the next |
| Layouts.FirstStale | src/VirtualDesk.cpp:130-132 | every key before the position is enabled and the key at it is not |
| Layouts.AdaptFrom | src/VirtualDesk.cpp:130-146 | defines the repair scan key by key over the snapshot: a live key is kept; a stale key moves to the first enabled monitor not yet a key and the scan stops, or is erased when there is none |
| Layouts.Adapt | src/VirtualDesk.cpp:129-147 | defines the repair of a layout chosen by size as that scan, started on the layout itself, in the given key order |
| Layouts.AdaptFromStep | src/VirtualDesk.cpp:130-146 | one step of the repair scan over the key at position `i` |
| Layouts.AdaptFromShape | src/VirtualDesk.cpp:130-146 | the scan from any intermediate state ends with every stale key dropped, or with the first stale key moved onto the first unused enabled monitor |
| Layouts.AdaptShape | src/VirtualDesk.cpp:129-147 | the repair in closed form: with no unused enabled monitor every stale key is dropped; otherwise the first stale key in scan order moves to the first unused one with its id, and nothing else changes |
| Layouts.AdaptKeepsLiveEntries | src/VirtualDesk.cpp:129-147 | entries of enabled monitors keep their workspace ids |
| Layouts.AdaptRekeysAtMostOnce | src/VirtualDesk.cpp:129-147 | at most one new key appears; it is the first unused enabled monitor, it carries the first stale key's id, and that stale key is gone |
| Layouts.AdaptNeverGrows | src/VirtualDesk.cpp:129-147 | the repaired layout has no more entries than before and every id it holds was already there |
| Layouts.AdaptDropsWhenNoNewMonitor | src/VirtualDesk.cpp:129-147 | when every enabled monitor is already a key, the result keeps exactly the enabled keys |
| Layouts.ExampleRegistry | src/VirtualDesk.cpp:170-174 | for monitors A, B (disabled), C the enabled descriptors are A then C |
| Layouts.AdaptExample | src/VirtualDesk.cpp:129-147 | layout A:1, B:2 with B disabled and C new becomes A:1, C:2 in either scan order |
| Layouts.LastIn | src/VirtualDesk.cpp:107-113 | defines "last stale key": the key occurs at a position after which every key in scan order is live |
| Layouts.LastStale | src/VirtualDesk.cpp:107-113 | a key that is not enabled and after which every key in scan order is enabled (the last stale key, `LastIn`); none exactly when no key is stale |
| Layouts.RemoveStaleFrom | src/VirtualDesk.cpp:107-113 | defines the removal scan key by key over the snapshot: a stale key's id is written to the target monitor and the key is erased |
| Layouts.RemoveStale | src/VirtualDesk.cpp:100-114 | defines the removal of stale entries from the active layout as that scan with the least-loaded enabled monitor as target; with no enabled monitor the layout must be empty and stays unchanged |
| Layouts.RemoveStaleFromStep | src/VirtualDesk.cpp:107-113 | one step of the removal scan over the key at position `i` |
| Layouts.RemoveStaleFromShape | src/VirtualDesk.cpp:107-113 | the scan from any intermediate state drops every stale key and leaves the target holding the id of the last stale key |
| Layouts.RemoveStaleShape | src/VirtualDesk.cpp:100-114 | the removal in closed form: with no stale key nothing changes; otherwise every stale key is gone and the least-loaded enabled monitor holds the id of the last stale key scanned |
| Layouts.RemoveStaleLeavesOnlyEnabled | src/VirtualDesk.cpp:100-114 | afterwards every key is an enabled descriptor and no workspace id is invented |
| Layouts.RemoveStaleNeverGrows | src/VirtualDesk.cpp:100-114 | the removal never adds an entry |
| Layouts.RemoveStaleKeepsLiveEntries | src/VirtualDesk.cpp:100-114 | enabled entries keep their ids, except the target's when a stale entry was moved onto it |
| Layouts.RemoveOutput | src/VirtualDesk.cpp:89-98 | the output is no longer a key, and the layout does not grow; if it was a key, its id moves to the least-loaded enabled monitor, overwriting that entry, unless that monitor is the output itself, whose entry is then just dropped; other entries are untouched |
| Layouts.MovedEntry | src/VirtualDesk.cpp:92-96 | what a move-then-erase of one key leaves behind, including the case where source and destination coincide |
| VirtualDesks.IterationOrder | src/VirtualDesk.cpp:107 | the keys come out once each, all of them, in some order |
| VirtualDesks.VirtualDesk.Searched | src/VirtualDesk.cpp:22-69 | defines the state a search leaves: `none` keeps only a generated layout at index 0; otherwise the first qualifying layout becomes active (repaired in place under `size`), or a generated layout is appended and activated |
| VirtualDesks.VirtualDesk.constructor | src/VirtualDesk.cpp:7-12 | a new desk holds exactly one generated layout, active at index 0, and the list is non-empty |
| VirtualDesks.VirtualDesk.ActiveLayout | src/VirtualDesk.cpp:14-20 | a valid cache returns the active layout and changes nothing; a stale one sets the flag and runs the search once |
| VirtualDesks.VirtualDesk.SearchActiveLayout | src/VirtualDesk.cpp:22-69 | the first qualifying layout becomes active (repaired under `size`, untouched under `monitors`), otherwise a generated layout is appended and activated; `none` leaves only the generated layout at index 0; the list stays non-empty and the index in range |
| VirtualDesks.VirtualDesk.FindLayoutByMonitors | src/VirtualDesk.cpp:26-45 | the scan returns the lowest index whose keys are all enabled descriptors, or none |
| VirtualDesks.VirtualDesk.FindLayoutBySize | src/VirtualDesk.cpp:48-62 | the scan returns the lowest index whose entry count equals the number of enabled monitors, or none |
| VirtualDesks.VirtualDesk.ChangeWorkspaceOnMonitor | src/VirtualDesk.cpp:71-73 | only the monitor's key in the active layout changes; the number of layouts and the active index stay |
| VirtualDesks.VirtualDesk.InvalidateActiveLayout | src/VirtualDesk.cpp:75-77 | only the cache flag changes |
| VirtualDesks.VirtualDesk.ResetLayout | src/VirtualDesk.cpp:79-81 | only the active layout changes, to a freshly generated one |
| VirtualDesks.VirtualDesk.DeleteInvalidMonitorOnAllLayouts | src/VirtualDesk.cpp:83-87 | repeating the removal once per stored layout has the effect of one removal from the active layout; no other layout changes |
| VirtualDesks.VirtualDesk.DeleteInvalidMonitor | src/VirtualDesk.cpp:89-98 | the active layout becomes `RemoveOutput` of its old value; no other layout changes |
| VirtualDesks.VirtualDesk.DeleteInvalidMonitors | src/VirtualDesk.cpp:100-114 | the active layout becomes `RemoveStale` of its old value for the scan order used; no other layout changes |
| VirtualDesks.VirtualDesk.MoveStaleEntries | src/VirtualDesk.cpp:107-113 | the in-place loop over the snapshot computes `RemoveStale` |
| VirtualDesks.VirtualDesk.GenerateCurrentMonitorLayout | src/VirtualDesk.cpp:155-168 | the counting loop builds exactly `GenerateLayout` |
| VirtualDesks.VirtualDesk.FirstAvailableMonitor | src/VirtualDesk.cpp:116-127 | the running-minimum loop returns the least-loaded enabled monitor (first among equals), and nothing exactly when none is enabled |
| VirtualDesks.VirtualDesk.CheckAndAdaptLayout | src/VirtualDesk.cpp:129-147 | layout `idx` becomes `Adapt` of its old value for the scan order used; no other layout changes |
| VirtualDesks.VirtualDesk.AdaptEntries | src/VirtualDesk.cpp:130-146 | the in-place loop with its early return computes `Adapt` |
| VirtualDesks.VirtualDesk.FirstNewMonitor | src/VirtualDesk.cpp:136-143 | the inner loop returns the first enabled descriptor that is not a key |
| SetIntersection.MergeIntersection | src/VirtualDesk.cpp:37 | every element the merge outputs is in both ranges, and the output is no longer than either |
| SetIntersection.FitsAsWritten | src/VirtualDesk.cpp:36-38 | defines the test as written: merge the two iteration orders, and compare the number of distinct merged elements with the number of keys |
| SetIntersection.MergeIntersectionSorted | src/VirtualDesk.cpp:37 | on sorted ranges the merge outputs exactly the common elements |
| SetIntersection.FitsAsWrittenSound | src/VirtualDesk.cpp:36-38 | when the test as written passes, every key is an enabled descriptor |
| SetIntersection.FitsAsWrittenSortedIsIntended | src/VirtualDesk.cpp:36-38 | on sorted ranges the test as written is the shared-count test, and passes exactly when every key is enabled |
| SetIntersection.FitsAsWrittenRejectsMatchingLayout | src/VirtualDesk.cpp:36-38 | keys B, A against enabled A, B: every key is enabled, yet the test as written fails |

## Left out

- Logging (`isVerbose`, `printLog`, the `PHANDLE` check) only observes and is not modelled.
- The compositor global, `CMonitor`/`wlr_output` handles and `shared_ptr` ownership are replaced by the registry sequence. That sequence is passed as a parameter to every operation that consults it.
- The window count of a monitor's active workspace is an opaque `nat` field of the monitor record. The compositor query behind it is not part of this model.
- `getMonitorFromDesc` is not part of this model. In the size-policy repair, a key counts as a live monitor when some enabled registry record has that descriptor (`LiveDescs`). That is the same test the removal of stale entries makes with its set of enabled descriptors.
- VirtualDesks.VirtualDesk.DeleteInvalidMonitor: the null dereference when no monitor is enabled becomes a precondition (at least one enabled monitor whenever the output is a key). The crash itself is not modelled. The same holds for DeleteInvalidMonitors and DeleteInvalidMonitorOnAllLayouts.
- VirtualDesks.VirtualDesk.FirstAvailableMonitor: the `INT_MAX` starting bound is replaced by "no choice yet". A monitor with `INT_MAX` or more windows would never be chosen by the source, but is chosen here.
- VirtualDesks.VirtualDesk.GenerateCurrentMonitorLayout: the `size_t` and `int` arithmetic is mathematical. The wrap-around for `id < 1` and the truncation of ids past `INT_MAX` are not modelled.
- The `Layout` type and the class header are not part of this model. `Layout` is `map<string, int>`. The initial value of `activeIsValid` is taken to be `false`. `id` and `name` are constants, since this file never reassigns them.
- Hash-map and hash-set iteration order is a nondeterministic choice, not the library's hashing.
- `setFromMonitors` is the function `DescSet`. It has no method of its own, because its single loop is the library's `transform`.
- VirtualDesks.VirtualDesk.SearchActiveLayout: the two policy scans are separate helper methods. The size policy repairs the chosen layout through `CheckAndAdaptLayout`. The index written back is the same as in the source, but not the reference the source returns.
- Repairs work on a local copy of the layout and write it back once. In the source the layout is edited inside the list. The states are the same, but aliasing of the returned `Layout&` is not modelled.
- VirtualDesks.VirtualDesk.FindLayoutByMonitors: it tests "every key is an enabled descriptor", the evident intent of the source. It does not run the standard library merge the source calls (see Findings).
- Creating, switching and persisting desks belongs to the owning object and is outside this class.

## Findings

| source | as written | input that shows it | evidently intended | confidence | as-written member | corrected member |
|---|---|---|---|---|---|---|
| src/VirtualDesk.cpp:36-38 | `std::set_intersection` runs over two `unordered_set`s, whose iteration order is not sorted. The merge then skips common elements, and the size comparison can reject a layout whose monitors are all enabled. | layout keys iterated as "B", "A"; enabled descriptors iterated as "A", "B". The merge outputs only "B", and 1 ≠ 2. | select the layout when every key is an enabled descriptor, i.e. when the true intersection has as many elements as the layout has keys | not executed | SetIntersection.FitsAsWrittenRejectsMatchingLayout | Layouts.SharedCount |
