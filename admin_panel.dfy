/** The admin panel: per-type upload quotas, the selected-file previews, the
    stored image list with delete and drag-and-drop reorder. Server replies are
    parameters; nothing is sent anywhere. */
module AdminPanel {
  import opened Wrappers
  import opened Sequences
  import opened Strings
  import opened Images

  const MaxBig: nat := 8
  const MaxSmall: nat := 7

  /** The quota of a kind (`maxLimit`): 8 big images, 7 small ones. */
  function Limit(k: Kind): (limit: nat)
    ensures k == Big ==> limit == 8
    ensures k == Small ==> limit == 7
  {
    match k
    case Big => MaxBig
    case Small => MaxSmall
  }

  /** One selected local file with its object-URL preview (`{ file, preview }`). */
  datatype Preview = Preview(file: string, previewUrl: string)

  /** What the quota checks of an upload decide: nothing happens, one of the two
      alerts, or the files are posted. */
  datatype Decision = NothingSelected | LimitReached | OnlyMore(remaining: nat) | Accepted

  /** The multipart body of an accepted upload: one `images` entry per file and
      the `imageTypes` field. */
  datatype Post = Post(images: seq<string>, imageTypes: string)

  /** The outcome line under the grids (`uploadStatus`), without its message text. */
  datatype Status = Idle | Uploaded(kind: Kind) | UploadFailed(kind: Kind)

  /** The quota rule of an upload of `selected` files when `current` images of the
      kind are stored and the quota is `limit`. */
  function CheckQuota(current: nat, selected: nat, limit: nat): (d: Decision)
    ensures d == NothingSelected <==> selected == 0
    ensures d == LimitReached <==> 0 < selected && limit <= current
    ensures d.OnlyMore? <==> 0 < selected && current < limit < current + selected
    ensures d.OnlyMore? ==> d.remaining == limit - current && 0 < d.remaining < selected
    ensures d == Accepted <==> 0 < selected && current + selected <= limit
  {
    if selected == 0 then NothingSelected
    else if current >= limit then LimitReached
    else if current + selected > limit then OnlyMore(limit - current)
    else Accepted
  }

  /** An accepted upload cannot push its kind past the quota: whatever records the
      server stores for the posted files, one per file and tagged with the kind,
      the kind's count stays within its limit and the other kind's is unchanged. */
  lemma AcceptedUploadStaysWithinQuota(images: seq<ImageRecord>, k: Kind, selected: nat, stored: seq<ImageRecord>)
    requires CheckQuota(CountOf(images, Tag(k)), selected, Limit(k)) == Accepted
    requires |stored| == selected
    requires forall j :: 0 <= j < |stored| ==> stored[j].imageType == Tag(k)
    ensures CountOf(images + stored, Tag(k)) <= Limit(k)
    ensures forall other :: other != k ==> CountOf(images + stored, Tag(other)) == CountOf(images, Tag(other))
  {
    CountOfAppend(images, stored, Tag(k));
    CountOfUniform(stored, Tag(k));
    assert CountOf(images + stored, Tag(k)) == CountOf(images, Tag(k)) + selected;
    forall other | other != k
      ensures CountOf(images + stored, Tag(other)) == CountOf(images, Tag(other))
    {
      OtherKindUnchanged(images, k, other, stored);
    }
  }

  /** Records tagged with one kind leave the other kind's count as it was. */
  lemma OtherKindUnchanged(images: seq<ImageRecord>, k: Kind, other: Kind, stored: seq<ImageRecord>)
    requires other != k
    requires forall j :: 0 <= j < |stored| ==> stored[j].imageType == Tag(k)
    ensures CountOf(images + stored, Tag(other)) == CountOf(images, Tag(other))
  {
    CountOfAppend(images, stored, Tag(other));
    CountOfOtherTag(stored, Tag(k), Tag(other));
  }

  /** `Array(n).fill(t).join(',')`: empty for no files, otherwise starting with the tag. */
  function ImageTypesField(t: string, n: nat): (field: string)
    ensures n == 0 ==> field == ""
    ensures n >= 1 ==> t <= field
  {
    Join(Repeat(t, n), ',')
  }

  /** The server reads the `imageTypes` field back by splitting it on commas: it
      gets exactly one copy of the tag per posted file, separated by one comma
      fewer than there are files. */
  lemma ImageTypesFieldSplits(k: Kind, n: nat)
    requires n >= 1
    ensures Split(ImageTypesField(Tag(k), n), ',') == Repeat(Tag(k), n)
    ensures multiset(ImageTypesField(Tag(k), n))[','] == n - 1
  {
    SplitJoin(Repeat(Tag(k), n), ',');
    JoinSeparatorCount(Repeat(Tag(k), n), ',');
  }

  /** The files of a selection, in order. */
  function Files(selection: seq<Preview>): (r: seq<string>)
    ensures |r| == |selection|
    ensures forall j :: 0 <= j < |selection| ==> r[j] == selection[j].file
  {
    seq(|selection|, j requires 0 <= j < |selection| => selection[j].file)
  }

  /** `img => img._id !== id` */
  function NotId(id: string): (test: ImageRecord -> bool)
    ensures forall img :: test(img) <==> img.id != id
  {
    (img: ImageRecord) => img.id != id
  }

  /** `prev.filter(img => img._id !== id)`: no record with the id is left, and
      the list can only get shorter. */
  function WithoutId(images: seq<ImageRecord>, id: string): (r: seq<ImageRecord>)
    ensures |r| <= |images|
    ensures forall j :: 0 <= j < |r| ==> r[j].id != id
  {
    var r := Filter(images, NotId(id));
    FilterCounts(images, NotId(id));
    assert forall j :: 0 <= j < |r| ==> r[j] in multiset(r);
    r
  }

  /** Deleting drops every record with the id, keeps every other record as often
      as it was there, and keeps their order. */
  lemma WithoutIdRemovesExactlyThatId(images: seq<ImageRecord>, id: string)
    ensures forall j :: 0 <= j < |WithoutId(images, id)| ==> WithoutId(images, id)[j].id != id
    ensures forall img: ImageRecord :: img.id != id ==> multiset(WithoutId(images, id))[img] == multiset(images)[img]
    ensures IsSubsequence(WithoutId(images, id), images)
  {
    FilterCounts(images, NotId(id));
    FilterIsSubsequence(images, NotId(id));
  }

  /** Deleting an id that every record carries empties the list. */
  lemma WithoutIdAllMatching(images: seq<ImageRecord>, id: string)
    requires forall j :: 0 <= j < |images| ==> images[j].id == id
    ensures WithoutId(images, id) == []
  {
    var r := WithoutId(images, id);
    if r != [] {
      WithoutIdRemovesExactlyThatId(images, id);
      assert false;
    }
  }

  /** Deleting the same id twice is the same as deleting it once. */
  lemma WithoutIdIdempotent(images: seq<ImageRecord>, id: string)
    ensures WithoutId(WithoutId(images, id), id) == WithoutId(images, id)
  {
    FilterIdempotent(images, NotId(id));
  }

  /** The number of empty tiles after the previews: `max - files.length`, where
      `Array.from` turns a negative length into an empty array. The grid shows as
      many tiles as the quota, or all previews when more files are selected. */
  function PlaceholderCount(limit: nat, selected: nat): (p: nat)
    ensures selected + p >= limit
    ensures p == 0 || selected + p == limit
    ensures p > 0 <==> selected < limit
  {
    if limit - selected < 0 then 0 else limit - selected
  }

  /** The panel's state: the stored list as last fetched and locally reordered,
      the pending selections of the two kinds, and whether each kind's
      "+ Add Photos" label is still shown (`showAddButton`). */
  class Panel {
    var images: seq<ImageRecord>
    var bigFiles: seq<Preview>
    var smallFiles: seq<Preview>
    var status: Status
    var bigAddShown: bool
    var smallAddShown: bool

    /** The state of a fresh mount: nothing fetched yet, nothing selected, and
        both labels shown. */
    constructor ()
      ensures images == [] && bigFiles == [] && smallFiles == [] && status == Idle
      ensures bigAddShown && smallAddShown
    {
      images, bigFiles, smallFiles, status := [], [], [], Idle;
      bigAddShown, smallAddShown := true, true;
    }

    /** The pending selection of a kind (`type === 'big' ? bigFiles : smallFiles`). */
    function Selection(k: Kind): (selection: seq<Preview>)
      reads this
      ensures k == Big ==> selection == bigFiles
      ensures k == Small ==> selection == smallFiles
    {
      match k
      case Big => bigFiles
      case Small => smallFiles
    }

    /** Whether the "+ Add Photos" label of a kind is still shown. */
    function AddShown(k: Kind): (shown: bool)
      reads this
      ensures k == Big ==> shown == bigAddShown
      ensures k == Small ==> shown == smallAddShown
    {
      match k
      case Big => bigAddShown
      case Small => smallAddShown
    }

    /** `bigCount` / `smallCount`: the two counts together never exceed the
        number of stored records. */
    function Count(k: Kind): (c: nat)
      reads this
      ensures forall other :: other != k ==> c + CountOf(images, Tag(other)) <= |images|
    {
      var other := if k == Big then Small else Big;
      CountOfTwoTags(images, Tag(k), Tag(other));
      assert forall o: Kind :: o != k ==> Tag(o) == Tag(other);
      CountOf(images, Tag(k))
    }

    /** `fetchImages`: the list is replaced only by a successful reply that has images. */
    method Refresh(reply: Option<seq<ImageRecord>>)
      modifies this
      ensures images == (if reply.Some? then reply.value else old(images))
      ensures bigFiles == old(bigFiles) && smallFiles == old(smallFiles) && status == old(status)
      ensures bigAddShown == old(bigAddShown) && smallAddShown == old(smallAddShown)
    {
      if reply.Some? {
        images := reply.value;
      }
    }

    /** A click on a kind's "+ Add Photos" label (`handleAddPhotosClick`) and
        what the file dialog then delivers to the change handler
        (`handleBigFilesChange` / `handleSmallFilesChange`). The click hides the
        label for good. The dialog opens only if the label was shown and the
        hidden input is enabled, that is, the kind is below its quota; a
        cancelled dialog (`chosen == None`) fires no change event. A choice
        replaces the kind's selection. */
    method AddPhotos(k: Kind, chosen: Option<seq<Preview>>) returns (dialog: bool)
      modifies this
      ensures dialog <==> old(AddShown(k)) && old(Count(k)) < Limit(k)
      ensures !AddShown(k)
      ensures Selection(k) == if dialog && chosen.Some? then chosen.value else old(Selection(k))
      ensures forall other :: other != k ==> Selection(other) == old(Selection(other))
      ensures forall other :: other != k ==> AddShown(other) == old(AddShown(other))
      ensures images == old(images) && status == old(status)
    {
      dialog := AddShown(k) && Count(k) < Limit(k);
      if k == Big {
        bigAddShown := false;
        if dialog && chosen.Some? {
          bigFiles := chosen.value;
        }
      } else {
        smallAddShown := false;
        if dialog && chosen.Some? {
          smallFiles := chosen.value;
        }
      }
    }

    /** `handleUpload`: the checks in order, then the post, whose reply is
        `serverOk`. A successful upload clears only this kind's selection; the
        refetch it triggers is a later `Refresh`. */
    method Upload(k: Kind, serverOk: bool) returns (d: Decision, post: Option<Post>)
      modifies this
      ensures d == CheckQuota(old(Count(k)), |old(Selection(k))|, Limit(k))
      ensures post == if d == Accepted
                      then Some(Post(Files(old(Selection(k))), ImageTypesField(Tag(k), |old(Selection(k))|)))
                      else None
      ensures images == old(images)
      ensures Selection(k) == if d == Accepted && serverOk then [] else old(Selection(k))
      ensures forall other :: other != k ==> Selection(other) == old(Selection(other))
      ensures status == if d != Accepted then old(status) else if serverOk then Uploaded(k) else UploadFailed(k)
      ensures bigAddShown == old(bigAddShown) && smallAddShown == old(smallAddShown)
    {
      var files := Selection(k);
      var currentCount := Count(k);
      var maxLimit := Limit(k);
      post := None;
      if |files| == 0 {
        d := NothingSelected;
        return;
      }
      if currentCount >= maxLimit {
        d := LimitReached;
        return;
      }
      if currentCount + |files| > maxLimit {
        d := OnlyMore(maxLimit - currentCount);
        return;
      }
      d := Accepted;
      post := Some(Post(Files(files), ImageTypesField(Tag(k), |files|)));
      if serverOk {
        status := Uploaded(k);
        if k == Big {
          bigFiles := [];
        } else {
          smallFiles := [];
        }
      } else {
        status := UploadFailed(k);
      }
    }

    /** `handleDelete`: the local list loses the id only when the server confirms. */
    method Delete(id: string, serverOk: bool)
      modifies this
      ensures images == if serverOk then WithoutId(old(images), id) else old(images)
      ensures bigFiles == old(bigFiles) && smallFiles == old(smallFiles) && status == old(status)
      ensures bigAddShown == old(bigAddShown) && smallAddShown == old(smallAddShown)
    {
      if serverOk {
        images := WithoutId(images, id);
      }
    }

    /** The preview's remove button: drops the `i`th file of the kind's selection. */
    method RemovePreview(k: Kind, i: int)
      modifies this
      ensures Selection(k) == WithoutIndex(old(Selection(k)), i)
      ensures forall other :: other != k ==> Selection(other) == old(Selection(other))
      ensures images == old(images) && status == old(status)
      ensures bigAddShown == old(bigAddShown) && smallAddShown == old(smallAddShown)
    {
      if k == Big {
        bigFiles := WithoutIndex(bigFiles, i);
      } else {
        smallFiles := WithoutIndex(smallFiles, i);
      }
    }

    /** `onDragEnd`: a drop outside the list changes nothing; otherwise the
        dragged record is spliced out of a copy and spliced back in at the
        destination. The drag library reports indices of the rendered list. */
    method Reorder(src: nat, dst: Option<nat>)
      requires src < |images|
      requires dst.Some? ==> dst.value < |images|
      modifies this
      ensures images == if dst.None? then old(images) else Move(old(images), src, dst.value)
      ensures bigFiles == old(bigFiles) && smallFiles == old(smallFiles) && status == old(status)
      ensures bigAddShown == old(bigAddShown) && smallAddShown == old(smallAddShown)
    {
      if dst.None? {
        return;
      }
      var reordered := images;
      var movedItem := reordered[src];
      reordered := WithoutIndex(reordered, src);
      reordered := InsertAt(reordered, dst.value, movedItem);
      images := reordered;
    }
  }

  /** The list starts out empty and the fetch started at mount is not awaited,
      so an upload made before it arrives is checked against a count of 0. With
      eight big images already on the server, eight more are accepted, and the
      list then fetched holds sixteen, twice the quota. */
  method MountRaceAcceptsOverQuota() returns (dialog: bool, d: Decision, countAfter: nat)
    ensures dialog && d == Accepted
    ensures countAfter == 16 && countAfter > Limit(Big)
  {
    var bigRecord := ImageRecord("id", "url", Tag(Big));
    var panel := new Panel();
    dialog := panel.AddPhotos(Big, Some(Repeat(Preview("file", "preview"), 8)));
    var post;
    d, post := panel.Upload(Big, true);
    CountOfUniform(Repeat(bigRecord, 16), Tag(Big));
    panel.Refresh(Some(Repeat(bigRecord, 16)));
    countAfter := panel.Count(Big);
  }

  /** Each kind gets at most one file dialog per mount: after an accepted
      upload the label is gone, a second click opens nothing, and a second
      upload finds no files. So the count that later uploads of the kind are
      checked against cannot go stale after the first. */
  method OneDialogPerKind() returns (first: Decision, reopened: bool, second: Decision)
    ensures first == Accepted && !reopened && second == NothingSelected
  {
    var threeFiles := Repeat(Preview("file", "preview"), 3);
    var panel := new Panel();
    var dialog := panel.AddPhotos(Big, Some(threeFiles));
    var post;
    first, post := panel.Upload(Big, true);
    reopened := panel.AddPhotos(Big, Some(threeFiles));
    second, post := panel.Upload(Big, true);
  }

  /** A click while the kind is at its quota hides the label without opening a
      dialog, since the input is disabled then. The label does not come back
      when a delete brings the kind under its quota, so no dialog can open for
      that kind for the rest of the mount. */
  method ClickAtQuotaLosesDialog() returns (first: bool, countAfterDelete: nat, second: bool)
    ensures !first && !second
    ensures countAfterDelete == 0 && countAfterDelete < Limit(Big)
  {
    var bigRecord := ImageRecord("id", "url", Tag(Big));
    var files := Repeat(Preview("file", "preview"), 1);
    var panel := new Panel();
    CountOfUniform(Repeat(bigRecord, 8), Tag(Big));
    panel.Refresh(Some(Repeat(bigRecord, 8)));
    first := panel.AddPhotos(Big, Some(files));
    WithoutIdAllMatching(Repeat(bigRecord, 8), "id");
    panel.Delete("id", true);
    countAfterDelete := panel.Count(Big);
    second := panel.AddPhotos(Big, Some(files));
  }
}
