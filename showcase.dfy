/** The animated showcase: the fetched records split into big and small URL
    lists, each image's placement and duration taken cyclically from fixed
    tables, and the timer that restarts the animation once the slowest image
    has finished. */
module Showcase {
  import opened Wrappers
  import opened Strings
  import opened Images

  /** A pixel offset an image starts from (`{ x, y }`). */
  datatype Point = Point(x: int, y: int)

  /** The CSS offsets an image moves to; the unit strings are not interpreted. */
  datatype Offset = Offset(x: string, y: string)

  /** `positions` (the target offsets of the big images) */
  const Positions: seq<Offset> := [
    Offset("13vw", "15vh"), Offset("-25vw", "5vh"), Offset("8vw", "5vh"), Offset("-10vw", "10vh"),
    Offset("10vw", "-5vh"), Offset("-20vw", "-20vh"), Offset("13vw", "-18vh"), Offset("-15vw", "-10vh")]

  /** `smallPositions` */
  const SmallPositions: seq<Offset> := [
    Offset("10vw", "25vh"), Offset("-10vw", "-25vh"), Offset("-15vw", "20vh"), Offset("-15vw", "-20vh"),
    Offset("-10vw", "30vh"), Offset("-10vw", "5vh"), Offset("10vw", "-15vh")]

  /** Animation lengths in seconds. */
  const BigDurations: seq<nat> := [5, 13, 13, 5, 5, 13, 13, 5]
  const SmallDurations: seq<nat> := [5, 5, 5, 13, 13, 15, 13]

  const BigInitialPositions: seq<Point> := [
    Point(-200, -200), Point(-200, -300), Point(-200, -300), Point(200, 200),
    Point(0, 0), Point(200, 300), Point(200, 300), Point(0, -100)]

  const SmallInitialPositions: seq<Point> := [
    Point(-250, -250), Point(50, 200), Point(-100, -300), Point(500, 500),
    Point(-150, -200), Point(300, 0), Point(-300, 120)]

  function DurationTable(k: Kind): (t: seq<nat>)
    ensures |t| > 0
  {
    match k
    case Big => BigDurations
    case Small => SmallDurations
  }

  function PositionTable(k: Kind): (t: seq<Offset>)
    ensures |t| > 0
  {
    match k
    case Big => Positions
    case Small => SmallPositions
  }

  function InitialTable(k: Kind): (t: seq<Point>)
    ensures |t| > 0
  {
    match k
    case Big => BigInitialPositions
    case Small => SmallInitialPositions
  }

  /** `table[i % table.length]`: the lookup is in bounds for every image index,
      so the tables are reused cyclically however many images there are. */
  function Cyclic<T>(table: seq<T>, i: nat): (r: T)
    requires |table| > 0
    ensures r in table
  {
    table[i % |table|]
  }

  /** The animation length of the `i`th image of a kind. Big images never take
      longer than 13 s. */
  function DurationAt(k: Kind, i: nat): (d: nat)
    ensures d == 5 || d == 13 || d == 15
    ensures k == Big ==> d <= 13
  {
    Cyclic(DurationTable(k), i)
  }

  /** `[...currentBigDurations, ...currentSmallDurations]` */
  function Durations(nBig: nat, nSmall: nat): (r: seq<nat>)
    ensures |r| == nBig + nSmall
    ensures forall p :: 0 <= p < nBig ==> r[p] == DurationAt(Big, p)
    ensures forall p :: nBig <= p < nBig + nSmall ==> r[p] == DurationAt(Small, p - nBig)
  {
    seq(nBig, j requires 0 <= j => DurationAt(Big, j)) + seq(nSmall, j requires 0 <= j => DurationAt(Small, j))
  }

  /** `s.length > 0 ? Math.max(...s) : 0` */
  function MaxOf(s: seq<nat>): (m: nat)
    ensures forall j :: 0 <= j < |s| ==> s[j] <= m
    ensures s == [] ==> m == 0
    ensures s != [] ==> m in s
  {
    if s == [] then 0
    else
      var rest := MaxOf(s[1..]);
      if s[0] >= rest then s[0] else rest
  }

  /** A bound that is reached is the maximum. */
  lemma MaxOfReached(s: seq<nat>, b: nat)
    requires forall j :: 0 <= j < |s| ==> s[j] <= b
    requires b in s
    ensures MaxOf(s) == b
  {
  }

  /** The first small images take 5, 5, 5, 13, 13 and 15 s. */
  lemma SmallDurationPrefix(j: nat)
    ensures j < 5 ==> DurationAt(Small, j) <= 13
    ensures j < 3 ==> DurationAt(Small, j) == 5
    ensures j == 3 ==> DurationAt(Small, j) == 13
    ensures j == 5 ==> DurationAt(Small, j) == 15
  {
    if j < 7 {
      assert j % 7 == j;
    }
  }

  /** The maximum over the durations, worked out from the two tables. */
  lemma {:induction false} MaxOfDurations(nBig: nat, nSmall: nat)
    ensures MaxOf(Durations(nBig, nSmall)) ==
      if nSmall >= 6 then 15
      else if nBig >= 2 || nSmall >= 4 then 13
      else if nBig + nSmall > 0 then 5
      else 0
  {
    var s := Durations(nBig, nSmall);
    if nSmall >= 6 {
      SmallDurationPrefix(5);
      assert s[nBig + 5] == 15;
      MaxOfReached(s, 15);
    } else if nBig >= 2 || nSmall >= 4 {
      forall p | nBig <= p < nBig + nSmall ensures s[p] <= 13 {
        SmallDurationPrefix(p - nBig);
      }
      if nBig >= 2 {
        assert s[1] == BigDurations[1];
      } else {
        SmallDurationPrefix(3);
        assert s[nBig + 3] == 13;
      }
      MaxOfReached(s, 13);
    } else if nBig + nSmall > 0 {
      forall p | nBig <= p < nBig + nSmall ensures s[p] <= 5 {
        SmallDurationPrefix(p - nBig);
      }
      forall p | 0 <= p < nBig ensures s[p] <= 5 {
        assert p == 0;
      }
      if nBig > 0 {
        assert s[0] == 5;
      } else {
        SmallDurationPrefix(0);
        assert s[0] == 5;
      }
      MaxOfReached(s, 5);
    }
  }

  /** `currentMaxDuration`: with the fixed tables the cycle lasts 15 s exactly
      when six or more small images are shown, 13 s when at least two big or four
      small ones are, 5 s for any other non-empty set, and 0 when nothing is shown. */
  function MaxDuration(nBig: nat, nSmall: nat): (m: nat)
    ensures m == if nSmall >= 6 then 15
                 else if nBig >= 2 || nSmall >= 4 then 13
                 else if nBig + nSmall > 0 then 5
                 else 0
  {
    MaxOfDurations(nBig, nSmall);
    MaxOf(Durations(nBig, nSmall))
  }

  /** The timer of the second effect: armed only without an error and with at
      least one image, after the longest animation, in milliseconds. The
      `currentMaxDuration > 0` guard never switches it off. */
  function TimerDelay(error: bool, nBig: nat, nSmall: nat): (delay: Option<nat>)
    ensures delay.Some? <==> !error && (nBig > 0 || nSmall > 0)
    ensures delay.Some? ==> delay.value == 1000 * MaxDuration(nBig, nSmall)
    ensures delay.Some? ==> delay.value == 5000 || delay.value == 13000 || delay.value == 15000
  {
    var unarmed: Option<nat> := None;
    if !error && (nBig > 0 || nSmall > 0) then
      var currentMaxDuration := MaxDuration(nBig, nSmall);
      if currentMaxDuration > 0 then Some(currentMaxDuration * 1000) else unarmed
    else unarmed
  }

  lemma DecimalHasNoDash(n: nat)
    ensures '-' !in Decimal(n)
  {
    var d := Decimal(n);
    forall k | 0 <= k < |d| ensures d[k] != '-' {
      assert '0' <= d[k];
    }
  }

  /** `${animationKey}-big-${index}` and `${animationKey}-small-${index}`: the
      counter, the tag and the index with a dash between neighbours. */
  function ElementKey(cycle: nat, k: Kind, i: nat): (key: string)
    ensures |key| == |Decimal(cycle)| + |Tag(k)| + |Decimal(i)| + 2
  {
    Decimal(cycle) + "-" + (Tag(k) + "-" + Decimal(i))
  }

  /** A key holds exactly the two dashes that separate its three fields. */
  lemma ElementKeyDashes(cycle: nat, k: Kind, i: nat)
    ensures multiset(ElementKey(cycle, k, i))['-'] == 2
  {
    DecimalHasNoDash(cycle);
    DecimalHasNoDash(i);
  }

  /** An element key determines its cycle, its kind and its index. */
  lemma ElementKeyInjective(c: nat, k: Kind, i: nat, c': nat, k': Kind, i': nat)
    requires ElementKey(c, k, i) == ElementKey(c', k', i')
    ensures c == c' && k == k' && i == i'
  {
    DecimalHasNoDash(c);
    DecimalHasNoDash(c');
    CutAtSeparator(Decimal(c), Tag(k) + "-" + Decimal(i), Decimal(c'), Tag(k') + "-" + Decimal(i'), '-');
    CutAtSeparator(Tag(k), Decimal(i), Tag(k'), Decimal(i'), '-');
    DecimalInjective(c, c');
    DecimalInjective(i, i');
  }

  /** What one `motion.img` is given: its key, its source, where it starts,
      where it moves to and for how long. */
  datatype Frame = Frame(key: string, src: string, initial: Point, target: Offset, duration: nat)

  /** The `i`th image of a kind in a cycle: it shows `src`, starts and ends at
      entries of its kind's tables, and takes its kind's duration for `i`. */
  function FrameAt(k: Kind, cycle: nat, src: string, i: nat): (f: Frame)
    ensures f.src == src && f.duration == DurationAt(k, i)
    ensures f.initial in InitialTable(k) && f.target in PositionTable(k)
  {
    Frame(ElementKey(cycle, k, i), src, Cyclic(InitialTable(k), i), Cyclic(PositionTable(k), i), DurationAt(k, i))
  }

  /** The images of both kinds in one cycle, big ones first. */
  function Scene(cycle: nat, big: seq<string>, small: seq<string>): (r: seq<Frame>)
    ensures |r| == |big| + |small|
    ensures forall p :: 0 <= p < |big| ==> r[p] == FrameAt(Big, cycle, big[p], p)
    ensures forall p :: |big| <= p < |big| + |small| ==> r[p] == FrameAt(Small, cycle, small[p - |big|], p - |big|)
  {
    seq(|big|, j requires 0 <= j < |big| => FrameAt(Big, cycle, big[j], j))
      + seq(|small|, j requires 0 <= j < |small| => FrameAt(Small, cycle, small[j], j))
  }

  /** A key names one image of one cycle: within a cycle all keys differ, and a
      new cycle gives every image a key it did not have, so each image is
      mounted afresh and replays its animation. */
  lemma SceneKeysIdentifyFrames(c: nat, c': nat, big: seq<string>, small: seq<string>, p: nat, q: nat)
    requires p < |big| + |small| && q < |big| + |small|
    requires Scene(c, big, small)[p].key == Scene(c', big, small)[q].key
    ensures c == c' && p == q
  {
    var n := |big|;
    SceneKey(c, big, small, p);
    SceneKey(c', big, small, q);
    ElementKeyInjective(c, if p < n then Big else Small, if p < n then p else p - n,
                        c', if q < n then Big else Small, if q < n then q else q - n);
  }

  lemma SceneKey(c: nat, big: seq<string>, small: seq<string>, p: nat)
    requires p < |big| + |small|
    ensures Scene(c, big, small)[p].key ==
      if p < |big| then ElementKey(c, Big, p) else ElementKey(c, Small, p - |big|)
  {
  }

  /** The durations of a scene are the ones the timer takes its maximum over,
      so the timer fires when the slowest image has finished, not before. */
  lemma TimerWaitsForSlowest(error: bool, cycle: nat, big: seq<string>, small: seq<string>)
    requires TimerDelay(error, |big|, |small|).Some?
    ensures forall p :: 0 <= p < |big| + |small| ==>
      1000 * Scene(cycle, big, small)[p].duration <= TimerDelay(error, |big|, |small|).value
    ensures exists p :: (0 <= p < |big| + |small| &&
      1000 * Scene(cycle, big, small)[p].duration == TimerDelay(error, |big|, |small|).value)
  {
    SceneDurations(cycle, big, small);
    TimerDelayIsMax(error, |big|, |small|);
    SlowestFrame(Scene(cycle, big, small), Durations(|big|, |small|), TimerDelay(error, |big|, |small|).value);
  }

  /** Frame `p` of a scene lasts as long as entry `p` of the timer's durations. */
  lemma SceneDurations(cycle: nat, big: seq<string>, small: seq<string>)
    ensures forall p :: 0 <= p < |big| + |small| ==>
      Scene(cycle, big, small)[p].duration == Durations(|big|, |small|)[p]
  {
  }

  /** An armed timer waits for the largest of the durations, in milliseconds. */
  lemma TimerDelayIsMax(error: bool, nBig: nat, nSmall: nat)
    requires TimerDelay(error, nBig, nSmall).Some?
    ensures TimerDelay(error, nBig, nSmall).value == 1000 * MaxOf(Durations(nBig, nSmall))
  {
  }

  /** Frames whose durations are `s` all end by a delay of the largest entry of
      `s` in milliseconds, and one of them ends exactly then. */
  lemma SlowestFrame(f: seq<Frame>, s: seq<nat>, delay: nat)
    requires |f| == |s| > 0
    requires forall p :: 0 <= p < |f| ==> f[p].duration == s[p]
    requires delay == 1000 * MaxOf(s)
    ensures forall p :: 0 <= p < |f| ==> 1000 * f[p].duration <= delay
    ensures exists p :: 0 <= p < |f| && 1000 * f[p].duration == delay
  {
    var w :| 0 <= w < |s| && s[w] == MaxOf(s);
    assert f[w].duration == s[w];
  }

  /** What the component renders: the error line, the empty notice, or the scene. */
  datatype View = ErrorMessage | NoImages | Animation(frames: seq<Frame>)

  function Render(error: bool, cycle: nat, big: seq<string>, small: seq<string>): (v: View)
    ensures error ==> v == ErrorMessage
    ensures !error && |big| == 0 && |small| == 0 ==> v == NoImages
    ensures v.Animation? ==> v.frames == Scene(cycle, big, small)
    ensures v.Animation? <==> TimerDelay(error, |big|, |small|).Some?
  {
    if error then ErrorMessage
    else if |big| == 0 && |small| == 0 then NoImages
    else Animation(Scene(cycle, big, small))
  }

  /** The two URL lists of `fetchImages`. */
  datatype Lists = Lists(big: seq<string>, small: seq<string>)

  /** The split of `fetchImages`: a missing or empty list gives two empty lists,
      otherwise the URLs of each tag in input order. */
  function Partition(allImages: Option<seq<ImageRecord>>): (r: Lists)
    ensures allImages.None? || allImages == Some([]) ==> r == Lists([], [])
    ensures allImages.Some? ==> |r.big| == CountOf(allImages.value, Tag(Big))
    ensures allImages.Some? ==> |r.small| == CountOf(allImages.value, Tag(Small))
  {
    if allImages.None? || |allImages.value| == 0 then Lists([], [])
    else Lists(UrlsOf(allImages.value, Tag(Big)), UrlsOf(allImages.value, Tag(Small)))
  }

  /** The split of a concatenation is the concatenation of the splits, so both
      lists keep the input order. */
  lemma PartitionAppend(a: seq<ImageRecord>, b: seq<ImageRecord>)
    ensures Partition(Some(a + b)).big == Partition(Some(a)).big + Partition(Some(b)).big
    ensures Partition(Some(a + b)).small == Partition(Some(a)).small + Partition(Some(b)).small
  {
    UrlsOfAppend(a, b, Tag(Big));
    UrlsOfAppend(a, b, Tag(Small));
  }

  /** One record lands in the list of its tag, and in neither list when its tag is
      neither `big` nor `small`. */
  lemma PartitionSingle(img: ImageRecord)
    ensures Partition(Some([img])).big == if img.imageType == Tag(Big) then [img.imageUrl] else []
    ensures Partition(Some([img])).small == if img.imageType == Tag(Small) then [img.imageUrl] else []
  {
    UrlsOfSingle(img, Tag(Big));
    UrlsOfSingle(img, Tag(Small));
  }

  /** The reply to the showcase's fetch: a failure (HTTP error, network or JSON
      error), or a decoded body whose `images` may be missing. */
  datatype Reply = Failed | Loaded(images: Option<seq<ImageRecord>>)

  /** The showcase's state. */
  class Showcase {
    var bigImages: seq<string>
    var smallImages: seq<string>
    var error: bool
    var animationKey: nat

    constructor ()
      ensures bigImages == [] && smallImages == [] && !error && animationKey == 0
    {
      bigImages, smallImages, error, animationKey := [], [], false, 0;
    }

    /** The pending timer: armed exactly when there is no error and some image. */
    function Timer(): (timer: Option<nat>)
      reads this
      ensures timer.Some? <==> !error && (|bigImages| > 0 || |smallImages| > 0)
    {
      TimerDelay(error, |bigImages|, |smallImages|)
    }

    /** What is on screen: the error line whenever the error is set, the empty
        notice without images, otherwise this cycle's scene. */
    function Shown(): (v: View)
      reads this
      ensures error ==> v == ErrorMessage
      ensures !error && |bigImages| == 0 && |smallImages| == 0 ==> v == NoImages
      ensures v.Animation? ==> v.frames == Scene(animationKey, bigImages, smallImages)
    {
      Render(error, animationKey, bigImages, smallImages)
    }

    /** `fetchImages`: clears the error, then either stores the split or records
        the failure, leaving the previous lists in place. */
    method Fetch(reply: Reply)
      modifies this
      ensures reply.Failed? ==> error && bigImages == old(bigImages) && smallImages == old(smallImages)
      ensures reply.Loaded? ==> !error && Lists(bigImages, smallImages) == Partition(reply.images)
      ensures animationKey == old(animationKey)
    {
      error := false;
      match reply
      case Failed =>
        error := true;
      case Loaded(allImages) =>
        var lists := Partition(allImages);
        bigImages := lists.big;
        smallImages := lists.small;
    }

    /** The timer firing: only an armed timer fires, and it advances the key by one. */
    method Tick()
      modifies this
      ensures animationKey == old(animationKey) + if old(Timer()).Some? then 1 else 0
      ensures bigImages == old(bigImages) && smallImages == old(smallImages) && error == old(error)
    {
      var timer := Timer();
      if timer.Some? {
        animationKey := animationKey + 1;
      }
    }
  }
}
