/** The image record served by the `get-image` endpoint, the two type tags the
    views know, and the per-type selections both views make of a record list. */
module Images {
  import opened Sequences

  /** One stored image: its `_id`, its `imageUrl` and its `imageType` tag. The
      tag is free text as far as the client is concerned. */
  datatype ImageRecord = ImageRecord(id: string, imageUrl: string, imageType: string)

  /** The two kinds of image the views lay out. */
  datatype Kind = Big | Small

  /** The `imageType` tag of a kind. */
  function Tag(k: Kind): (t: string)
    ensures |t| > 0 && ',' !in t && '-' !in t
  {
    match k
    case Big => "big"
    case Small => "small"
  }

  /** `img => img.imageType === t` */
  function HasType(t: string): (test: ImageRecord -> bool)
    ensures forall img :: test(img) <==> img.imageType == t
  {
    (img: ImageRecord) => img.imageType == t
  }

  /** `images.filter(img => img.imageType === t)` */
  function OfType(images: seq<ImageRecord>, t: string): (r: seq<ImageRecord>)
    ensures |r| <= |images|
    ensures forall j :: 0 <= j < |r| ==> r[j].imageType == t
  {
    var r := Filter(images, HasType(t));
    FilterCounts(images, HasType(t));
    assert forall j :: 0 <= j < |r| ==> r[j] in multiset(r);
    r
  }

  /** How many records carry tag `t` (`bigCount`, `smallCount`). */
  function CountOf(images: seq<ImageRecord>, t: string): (c: nat)
    ensures c <= |images|
  {
    |OfType(images, t)|
  }

  /** Records of two different tags together are at most all the records. */
  lemma {:induction false} CountOfTwoTags(images: seq<ImageRecord>, t: string, u: string)
    requires t != u
    ensures CountOf(images, t) + CountOf(images, u) <= |images|
  {
    if images != [] {
      CountOfTwoTags(images[1..], t, u);
      CountOfFirst(images, t);
      CountOfFirst(images, u);
    }
  }

  /** The first record adds one to its own tag's count and nothing to another's. */
  lemma CountOfFirst(images: seq<ImageRecord>, t: string)
    requires images != []
    ensures CountOf(images, t) == (if images[0].imageType == t then 1 else 0) + CountOf(images[1..], t)
  {
    assert HasType(t)(images[0]) <==> images[0].imageType == t;
  }

  /** The per-type count of a concatenation is the sum of the counts. */
  lemma CountOfAppend(a: seq<ImageRecord>, b: seq<ImageRecord>, t: string)
    ensures CountOf(a + b, t) == CountOf(a, t) + CountOf(b, t)
  {
    FilterAppend(a, b, HasType(t));
  }

  /** In a batch whose records all carry tag `t`, every record counts. */
  lemma {:induction false} CountOfUniform(batch: seq<ImageRecord>, t: string)
    requires forall k :: 0 <= k < |batch| ==> batch[k].imageType == t
    ensures CountOf(batch, t) == |batch|
  {
    if batch != [] {
      CountOfUniform(batch[1..], t);
    }
  }

  /** A batch whose records all carry tag `t` adds nothing to another tag's count. */
  lemma {:induction false} CountOfOtherTag(batch: seq<ImageRecord>, t: string, u: string)
    requires t != u
    requires forall k :: 0 <= k < |batch| ==> batch[k].imageType == t
    ensures CountOf(batch, u) == 0
  {
    if batch != [] {
      CountOfOtherTag(batch[1..], t, u);
    }
  }

  /** `records.map(img => img.imageUrl)` */
  function Urls(records: seq<ImageRecord>): (r: seq<string>)
    ensures |r| == |records|
    ensures forall j :: 0 <= j < |records| ==> r[j] == records[j].imageUrl
  {
    seq(|records|, j requires 0 <= j < |records| => records[j].imageUrl)
  }

  lemma UrlsAppend(a: seq<ImageRecord>, b: seq<ImageRecord>)
    ensures Urls(a + b) == Urls(a) + Urls(b)
  {
    var r, s := Urls(a + b), Urls(a) + Urls(b);
    forall j | 0 <= j < |r| ensures r[j] == s[j] {
      if j < |a| {
        assert (a + b)[j] == a[j];
      } else {
        assert (a + b)[j] == b[j - |a|];
      }
    }
  }

  /** `images.filter(img => img.imageType === t).map(img => img.imageUrl)` */
  function UrlsOf(images: seq<ImageRecord>, t: string): (r: seq<string>)
    ensures |r| == CountOf(images, t)
  {
    Urls(OfType(images, t))
  }

  /** The URL selection of a concatenation is the concatenation of the selections. */
  lemma UrlsOfAppend(a: seq<ImageRecord>, b: seq<ImageRecord>, t: string)
    ensures UrlsOf(a + b, t) == UrlsOf(a, t) + UrlsOf(b, t)
  {
    FilterAppend(a, b, HasType(t));
    UrlsAppend(OfType(a, t), OfType(b, t));
  }

  /** A single record is selected exactly when it carries the tag. */
  lemma UrlsOfSingle(img: ImageRecord, t: string)
    ensures UrlsOf([img], t) == if img.imageType == t then [img.imageUrl] else []
  {
    assert [img][1..] == [];
  }
}
