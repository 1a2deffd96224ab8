# animation-front: admin quotas, list editing and the showcase cycle

A model of the client logic of a small React front end with two views.

* The **admin panel** (`src/AnimationPanel.jsx`) keeps the stored image list and one pending
  selection of local files per kind (`big`, `small`). It enforces the upload quotas (8 big,
  7 small), builds the `imageTypes` form field, deletes records by id once the server confirms,
  removes a selected preview by index, and reorders the list by drag and drop with two `splice`
  calls. Each kind's "+ Add Photos" label hides itself when clicked, so each kind gets at most
  one file dialog per mount. A click while the kind is at its quota hides the label without
  opening a dialog, and the label does not come back after a delete. It is modelled as the
  class `AdminPanel.Panel` with the fields `images`, `bigFiles`, `smallFiles`, `status`,
  `bigAddShown` and `smallAddShown`, and the methods `Refresh`, `AddPhotos`, `Upload`, `Delete`,
  `RemovePreview` and `Reorder`. The three that
  talk to the server (`Refresh`, `Upload` and `Delete`) take the server's reply as a parameter.
  Pure functions and lemmas state what the quota rule and the list operations mean.
* The **showcase** (`src/Header.jsx`) splits the fetched records into big and small URL lists,
  gives image *i* its start point, target offset and duration from fixed tables at index
  *i* mod the table length, and runs a timer that advances `animationKey` once the longest
  animation has elapsed. It is modelled as pure functions (`Partition`, `DurationAt`,
  `MaxDuration`, `TimerDelay`, `Scene`, `Render`) and the class `Showcase.Showcase`, whose
  `Fetch` and `Tick` methods change `bigImages`, `smallImages`, `error` and `animationKey`.

Shared pieces live in `Wrappers` (the `Option` type), `Sequences` (JavaScript's `filter` and
the two `splice` forms, with their laws), `Strings` (`join`, `split` with one separator character, and the decimal digits of a
number in a template literal) and `Images` (the record, the two tags, and per-tag counts and
URL lists).

What is proved, in short:

* The quota rule answers "nothing selected", "limit reached", "only *n* more" with
  *n* = limit − current, or "accepted" exactly in the cases the code tests. Measured against the
  list last fetched, an accepted upload cannot push a kind past its quota, provided the server stores one
  record per posted file, tagged with the kind (whatever their ids and URLs). The list starts out empty, though, and the fetch started
  at mount is not awaited. An upload made before that fetch arrives is checked against a count
  of 0, so the quota can be exceeded (`MountRaceAcceptsOverQuota`). The refetch after an upload
  is not awaited either, but it cannot leave a stale count behind: a second upload of the same
  kind would need a second file dialog, and the label that opens it is gone (`OneDialogPerKind`).
* The `imageTypes` field splits back into exactly one copy of the tag per posted file. Joining
  the pieces of any split gives back the string. Splitting a join gives back the parts when
  there is at least one part and no part contains the separator. The empty list is the
  exception: it joins to `""`, which splits into `[""]`.
* A confirmed delete removes exactly the records with that id and keeps all others, with the
  same multiplicity and in their original order. Deleting twice is the same as deleting once.
  An unconfirmed delete changes nothing.
* A reorder keeps the length and the elements (a permutation). It puts the dragged record at the
  destination and keeps all other records in their relative order. Moving back undoes it.
* The showcase split is a homomorphism over concatenation, so both lists keep the input order.
  A single record lands in the list of its tag, and in neither list for any other tag.
* Every table lookup is in bounds, and every duration is 5, 13 or 15 s. The cycle lasts 15 s
  exactly when six or more small images are shown. It lasts 13 s when at least two big or four
  small images are shown, 5 s for any other non-empty set, and 0 when nothing is shown.
* The timer is armed exactly when there is no error and at least one image. Its delay is
  1000 × the maximum duration, so it never fires before the slowest image has finished. Each
  firing adds exactly 1 to `animationKey`.
* An element key names one image of one cycle. Within a cycle all keys differ, and the next
  cycle gives every image a new key, so every image replays its animation.

The showcase does not wait for its images to load: the timer is armed as soon as a list is
non-empty and no error is set (src/Header.jsx:98).

## Model

| member | source | states |
|---|---|---|
| Sequences.Filter | src/AnimationPanel.jsx:122 | `filter` never makes a list longer |
| Sequences.FilterCounts | src/AnimationPanel.jsx:122 | `filter` keeps each element that passes the test exactly as often as it occurs and drops every other element |
| Sequences.FilterIsSubsequence | src/Header.jsx:81-82 | what `filter` keeps stays in its original order |
| Sequences.FilterAppend | src/Header.jsx:81-82 | filtering a concatenation is concatenating the filtered parts |
| Sequences.FilterIdempotent | src/AnimationPanel.jsx:122 | filtering twice with the same test is filtering once |
| Sequences.WithoutIndex | src/AnimationPanel.jsx:190-192 | the index filter drops exactly the element at the index when the index is in range: earlier elements stay put, later ones move down one; otherwise nothing changes |
| Sequences.WithoutIndexSplice | src/AnimationPanel.jsx:226 | for an index in range, the index filter equals `splice(i, 1)`, and the removed element is the only one missing from the multiset |
| Sequences.WithoutIndexIsSlices | src/AnimationPanel.jsx:226 | for an index in range, the index filter is the part before the index followed by the part after it |
| Sequences.SliceOutMultiset | src/AnimationPanel.jsx:226 | cutting out one element loses exactly that element from the multiset |
| Sequences.InsertAt | src/AnimationPanel.jsx:227 | `splice(i, 0, x)` grows the list by one and puts `x` at index `i` |
| Sequences.InsertThenRemove | src/AnimationPanel.jsx:226-227 | removing what was just inserted at an index gives back the original list |
| Sequences.Move | src/AnimationPanel.jsx:225-227 | the reorder keeps the length, puts the dragged element at the destination, and leaves every element before both indices or after both indices in place |
| Sequences.MoveIsPermutation | src/AnimationPanel.jsx:223-228 | a reorder keeps the length and the multiset of records, and puts the dragged record at the destination index |
| Sequences.MoveKeepsOthersInOrder | src/AnimationPanel.jsx:223-228 | apart from the dragged record, all records keep their relative order |
| Sequences.RemoveThenInsert | src/AnimationPanel.jsx:225-227 | taking an element out and putting it back at the same index restores the list |
| Sequences.SpliceBack | src/AnimationPanel.jsx:226-227 | the slices around an index with the element put back between them are the original list |
| Sequences.MoveRoundTrip | src/AnimationPanel.jsx:223-228 | dragging the record back from the destination to the source restores the list |
| Strings.Join | src/AnimationPanel.jsx:82 | `join` starts with the first part and holds at least one character per separator |
| Strings.JoinSeparatorCount | src/AnimationPanel.jsx:82 | separator-free parts are joined with exactly one separator fewer than there are parts |
| Strings.Split | src/AnimationPanel.jsx:82 | `split` yields at least one piece and no piece contains the separator |
| Strings.Repeat | src/AnimationPanel.jsx:82 | `Array(n).fill(x)` has `n` entries, each equal to `x` |
| Strings.SplitJoin | src/AnimationPanel.jsx:82 | splitting the join of a non-empty list of separator-free parts gives the parts back |
| Strings.JoinSplit | src/AnimationPanel.jsx:82 | joining the pieces of any split gives back the string |
| Strings.Digit | src/Header.jsx:151 | a digit below ten renders as the character with that digit value |
| Strings.Decimal | src/Header.jsx:151 | a number renders as a non-empty string of decimal digits, one digit long exactly for numbers below ten |
| Strings.DecimalInjective | src/Header.jsx:151 | different numbers render as different strings |
| Strings.CutAtSeparator | src/Header.jsx:151 | a separator absent from both prefixes cuts two equal strings at the same place |
| Images.Tag | src/AnimationPanel.jsx:64-66 | the `big` and `small` tags are non-empty and contain neither a comma nor a dash |
| Images.HasType | src/AnimationPanel.jsx:39-40 | the type filter's test passes exactly the records carrying the tag |
| Images.OfType | src/AnimationPanel.jsx:39-40 | the records of a type are no more than all records, and each carries the tag |
| Images.CountOf | src/AnimationPanel.jsx:39-40 | a type's count is at most the number of records |
| Images.CountOfTwoTags | src/AnimationPanel.jsx:39-40 | the counts of two different tags add up to at most the number of records |
| Images.CountOfAppend | src/AnimationPanel.jsx:39-40 | the per-type count of a concatenation is the sum of the counts |
| Images.CountOfUniform | src/AnimationPanel.jsx:39-40 | in a batch of records all tagged `t`, every record counts towards `t` |
| Images.CountOfOtherTag | src/AnimationPanel.jsx:39-40 | a batch of records all tagged `t` adds nothing to another tag's count |
| Images.Urls | src/Header.jsx:81-82 | `map(img => img.imageUrl)` gives one URL per record, position by position |
| Images.UrlsAppend | src/Header.jsx:81-82 | the URLs of a concatenation are the concatenated URLs |
| Images.UrlsOf | src/Header.jsx:81-82 | the URL list of a tag has one entry per record with that tag |
| Images.UrlsOfAppend | src/Header.jsx:81-82 | the URL list of a tag over a concatenation is the concatenation of the lists |
| Images.UrlsOfSingle | src/Header.jsx:81-82 | one record contributes its URL exactly when it carries the tag |
| AdminPanel.Limit | src/AnimationPanel.jsx:7-8 | the quota is 8 for big images and 7 for small ones |
| AdminPanel.CheckQuota | src/AnimationPanel.jsx:63-78 | nothing happens for an empty selection; "limit reached" exactly when the stored count is at or over the quota; "only n more" with n = quota − count, 0 < n < selected, exactly when the selection overshoots; accepted exactly when count + selected ≤ quota |
| AdminPanel.AcceptedUploadStaysWithinQuota | src/AnimationPanel.jsx:65-78 | measured against the current list, after an accepted upload, however the server stores one record per posted file tagged with the kind, the kind's count is within its quota and the other kind's count is unchanged |
| AdminPanel.MountRaceAcceptsOverQuota | src/AnimationPanel.jsx:11-37 | with eight big images on the server, an upload of eight more made before the fetch started at mount arrives is accepted against a count of 0, and the list then fetched holds sixteen, twice the quota |
| AdminPanel.ClickAtQuotaLosesDialog | src/AnimationPanel.jsx:138-170 | with eight big images stored, a click on the label opens no dialog; after a confirmed delete leaves no big image, a second click still opens none |
| AdminPanel.OneDialogPerKind | src/AnimationPanel.jsx:138-170 | after an accepted upload a second click on the kind's label opens no dialog and a second upload finds no files |
| AdminPanel.ImageTypesField | src/AnimationPanel.jsx:82 | the `imageTypes` field is empty for no files and otherwise starts with the tag |
| AdminPanel.ImageTypesFieldSplits | src/AnimationPanel.jsx:82 | the `imageTypes` field splits on commas into exactly one copy of the tag per posted file, with one comma fewer than files |
| AdminPanel.Files | src/AnimationPanel.jsx:81 | the form gets one `images` entry per selected file: entry j is the j-th selected file |
| AdminPanel.NotId | src/AnimationPanel.jsx:122 | the delete filter's test passes exactly the records whose id differs from the deleted one |
| AdminPanel.WithoutId | src/AnimationPanel.jsx:122 | after a delete no record has the id, and the list is no longer than before |
| AdminPanel.WithoutIdRemovesExactlyThatId | src/AnimationPanel.jsx:122 | after a delete no record has the id, every other record is kept as often as before, and their order is kept |
| AdminPanel.WithoutIdAllMatching | src/AnimationPanel.jsx:122 | deleting an id that every record carries leaves an empty list |
| AdminPanel.WithoutIdIdempotent | src/AnimationPanel.jsx:122 | deleting the same id twice leaves the same list as deleting it once |
| AdminPanel.PlaceholderCount | src/AnimationPanel.jsx:134-135 | previews plus empty tiles fill the quota; there are empty tiles exactly when fewer files than the quota are selected, and none, not a negative number, otherwise |
| AdminPanel.Panel.Selection | src/AnimationPanel.jsx:64 | an upload of big images uses `bigFiles`, of small images `smallFiles` |
| AdminPanel.Panel.Count | src/AnimationPanel.jsx:39-40 | the big and small counts together never exceed the number of stored records |
| AdminPanel.Panel.constructor | src/AnimationPanel.jsx:11-20 | the panel starts with no images, no selections, no status, and both "+ Add Photos" labels shown |
| AdminPanel.Panel.AddShown | src/AnimationPanel.jsx:138 | each kind has its own `showAddButton` flag |
| AdminPanel.Panel.Refresh | src/AnimationPanel.jsx:23-33 | the stored list is replaced only by a successful reply that carries images; nothing else changes |
| AdminPanel.Panel.AddPhotos | src/AnimationPanel.jsx:138-170 | a click on the label always hides it for good; the dialog opens exactly when the label was shown and the kind is below its quota (line 156 disables the input otherwise); a choice from an opened dialog replaces that kind's selection, as the change handlers of lines 43-60 do; nothing else changes |
| AdminPanel.Panel.Upload | src/AnimationPanel.jsx:63-112 | the decision is the quota rule on the stored count and the selection; only an accepted upload posts, with the selected files and the `imageTypes` field; the stored list never changes; a confirmed upload clears only that kind's selection; the status records the server's answer |
| AdminPanel.Panel.Delete | src/AnimationPanel.jsx:114-130 | a confirmed delete filters the id out of the list; a failed one changes nothing; the selections are untouched |
| AdminPanel.Panel.RemovePreview | src/AnimationPanel.jsx:187-193 | the kind's selection loses the element at the index; the other kind's selection and the list are untouched |
| AdminPanel.Panel.Reorder | src/AnimationPanel.jsx:223-229 | a drop without a destination changes nothing; otherwise the list becomes the move of the dragged record from source to destination |
| Showcase.DurationTable | src/Header.jsx:29-30 | both duration tables are non-empty |
| Showcase.PositionTable | src/Header.jsx:8-27 | both target tables are non-empty |
| Showcase.InitialTable | src/Header.jsx:32-51 | both start-point tables are non-empty |
| Showcase.Cyclic | src/Header.jsx:141-147 | the lookup at `i % length` is in bounds for every image index and yields an entry of the table |
| Showcase.DurationAt | src/Header.jsx:99-100 | every image's duration is 5, 13 or 15 s, and a big image's is at most 13 s |
| Showcase.Durations | src/Header.jsx:99-102 | the list of durations has one entry per image, big images first, each the image's own table duration |
| Showcase.MaxOf | src/Header.jsx:103 | the maximum bounds every duration and is one of them, or is 0 for an empty list |
| Showcase.MaxOfReached | src/Header.jsx:103 | a bound that some duration reaches is the maximum |
| Showcase.SmallDurationPrefix | src/Header.jsx:30 | the first small images take 5, 5, 5, 13 and 15 s at indices 0-2, 3 and 5 |
| Showcase.MaxOfDurations | src/Header.jsx:99-103 | the maximum is 15 exactly with six or more small images, 13 with at least two big or four small ones, 5 for any other non-empty set, 0 for none |
| Showcase.MaxDuration | src/Header.jsx:99-103 | the longest animation, by the counts of shown images, as in the line above |
| Showcase.TimerDelay | src/Header.jsx:97-113 | a timer is armed exactly when there is no error and some image; its delay is 1000 × the longest duration, so 5000, 13000 or 15000 ms |
| Showcase.DecimalHasNoDash | src/Header.jsx:151 | the rendered counter contains no dash |
| Showcase.ElementKey | src/Header.jsx:151 | a key is as long as the counter's digits, the tag and the index's digits together, plus two dashes; `ElementKeyDashes` and `ElementKeyInjective` state what a key holds and identifies |
| Showcase.ElementKeyDashes | src/Header.jsx:151 | a key holds exactly two dashes |
| Showcase.ElementKeyInjective | src/Header.jsx:151 | an element key determines its cycle, its kind and its index |
| Showcase.FrameAt | src/Header.jsx:140-186 | an image shows its own URL, starts and ends at entries of its kind's tables, and takes its kind's duration for its index |
| Showcase.Scene | src/Header.jsx:140-214 | the scene has one frame per image, big images first, each built from its kind's tables at its own index |
| Showcase.SceneKey | src/Header.jsx:151 | the key of the frame at a position names the frame's kind and index within its kind |
| Showcase.SceneKeysIdentifyFrames | src/Header.jsx:151 | keys are pairwise distinct within a cycle and never repeat across cycles |
| Showcase.TimerWaitsForSlowest | src/Header.jsx:99-108 | every shown image's animation ends by the time the timer fires, and the slowest one ends exactly then |
| Showcase.Render | src/Header.jsx:116-214 | an error shows the error line even when images are loaded; no error and no images shows the empty notice; otherwise the animation, whose frames are the scene, is shown, exactly when the timer is armed |
| Showcase.Partition | src/Header.jsx:72-85 | a missing or empty list gives two empty lists; otherwise each list has one URL per record of its tag |
| Showcase.PartitionAppend | src/Header.jsx:81-82 | the split of a concatenation is the concatenation of the splits, so both lists keep the input order |
| Showcase.PartitionSingle | src/Header.jsx:81-82 | one record lands in the list of its tag, and in neither list when its tag is neither `big` nor `small` |
| Showcase.Showcase.constructor | src/Header.jsx:55-58 | the showcase starts with empty lists, no error and key 0 |
| Showcase.Showcase.Timer | src/Header.jsx:97-113 | the showcase's timer is armed exactly when there is no error and some image |
| Showcase.Showcase.Shown | src/Header.jsx:116-214 | the screen shows the error line whenever the error is set, the empty notice without images, and otherwise this cycle's scene |
| Showcase.Showcase.Fetch | src/Header.jsx:60-91 | a failed fetch sets the error and keeps the previous lists; a loaded one clears the error and stores the split; the key is untouched |
| Showcase.Showcase.Tick | src/Header.jsx:105-108 | only an armed timer fires, and it adds exactly 1 to the key; nothing else changes |

## Left out

- Network I/O: the `fetch` calls, JSON decoding and HTTP status handling are replaced by reply parameters (`Option<seq<ImageRecord>>` for the panel's refetch, `serverOk` for upload and delete, `Reply` for the showcase).
- Message texts: the alert and status strings and the showcase's error message are reduced to the `Decision` and `Status` values and an `error` flag; console logging is left out.
- Panel.Upload: the refetch it starts after a confirmed upload runs asynchronously; the model leaves `images` unchanged and the refetch is a later `Refresh` call.
- The `loadingBig`/`loadingSmall` flags are true only while the post is awaited and false again afterwards; the model has no intermediate state during an await, so they are left out.
- The upload button is disabled while the post is awaited or the kind is at its quota; `Upload` models `handleUpload` itself, which checks the quota again, so it can also answer "limit reached".
- `document.getElementById(...).click()` and the label's `htmlFor` are the two ways the click reaches the hidden input; `AddPhotos` models their joint effect, one dialog.
- Browser objects: `File`, `FormData` and `URL.createObjectURL` are reduced to the file's name and the preview URL string.
- React scheduling: the order of state updates, re-renders, the hook called inside `renderGrid`, and the timer's `clearTimeout` cleanup. `Tick` models one expiry of the timer that the current state arms.
- Drag-and-drop internals: only the source index and the optional destination index reach `Reorder`; the library reports indices of the rendered list, which `Reorder` requires.
- The reorder is local state only; persisting it is not part of the source either.
- Styling: easing, opacity, the anchor properties of the position tables (`top`, `left`, `right`, `bottom`, `originX`, `originY`) and the CSS units. Target offsets are kept as uninterpreted strings. The `?.x || 0` fallbacks are never needed, because every lookup is in range.
- Real time: `setTimeout` is reduced to the delay value and the `Tick` step.
- Strings.Split: only the one-character separator form of `split` is modelled, which is the form that reads the `imageTypes` field.
- `src/App.jsx` only routes between the two views and is not part of this model.
