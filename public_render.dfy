/**
 * The public profile page: the header policy driven by the theme, and the
 * dispatch that turns the block list into rendered items.
 */
module PublicRender {
  import opened Wrappers
  import opened Strings
  import opened Blocks
  import opened Profiles

  /** What one block renders as; raw payload values are shown as they are */
  datatype Item =
    | LinkItem(caption: Option<Value>, href: Option<Value>)
    | SocialItem(caption: Option<Value>, href: Option<Value>)
    | TextItem(text: Option<Value>)
    | VideoEmbed(src: string)
    | VideoUnsupported                 // "Video provider not supported"
    | GalleryItem(images: seq<string>)

  /** The TypeErrors the dispatch can throw, which fail the whole page render */
  datatype Fault =
    | DataUndefined(kind: string)      // `comp.data.x` with `data` absent
    | UrlNotSplittable                 // an array `url` that `includes` a provider name has no `split`
    | ImagesNotMappable                // a non-empty string `images` has no `map`

  /** `d.key`, absent as `None` */
  function Get(d: Payload, key: string): (r: Option<Value>)
    ensures r.Some? <==> key in d
    ensures r.Some? ==> r.value == d[key]
  {
    if key in d then Some(d[key]) else None
  }

  const EmbedPrefix := "https://www.youtube.com/embed/"

  /** `url.includes('youtube') || url.includes('youtu.be')`: a substring test, anywhere in the url */
  predicate IsSupportedVideo(url: string)
    ensures IsSupportedVideo(url) <==>
      (exists i: nat :: OccursAt(url, "youtube", i)) || (exists i: nat :: OccursAt(url, "youtu.be", i))
  {
    ContainsIff(url, "youtube");
    ContainsIff(url, "youtu.be");
    Contains(url, "youtube") || Contains(url, "youtu.be")
  }

  /** `url.split('v=')[1] || url.split('/').pop()` */
  function VideoId(url: string): (r: string)
    ensures r in Split(url, "v=") || r in Split(url, "/")
    ensures !Contains(url, "v=") ==> r == Last(Split(url, "/"))
  {
    var query := Split(url, "v=");
    if |query| > 1 && query[1] != "" then query[1] else Last(Split(url, "/"))
  }

  /**
   * The video branch: an embed for a url naming a supported provider, the
   * fallback otherwise, and a throw for an array url that `includes` a
   * provider name, which has no `split`.
   */
  function RenderVideo(url: Option<Value>): (r: Result<Item, Fault>)
    ensures r.Failure? <==> url.Some? && url.value.List? && ("youtube" in url.value.items || "youtu.be" in url.value.items)
    ensures r.Success? ==> r.value.VideoEmbed? || r.value == VideoUnsupported
    ensures r.Success? && r.value.VideoEmbed? ==>
      url.Some? && url.value.Str? && IsSupportedVideo(url.value.s) && r.value.src == EmbedPrefix + VideoId(url.value.s)
    ensures r.Failure? ==> r.error == UrlNotSplittable
  {
    match url
    case None => Success(VideoUnsupported)
    case Some(Str(u)) =>
      if IsSupportedVideo(u) then Success(VideoEmbed(EmbedPrefix + VideoId(u))) else Success(VideoUnsupported)
    case Some(List(xs)) =>
      // Array.prototype.includes compares whole entries
      if "youtube" in xs || "youtu.be" in xs then Failure(UrlNotSplittable) else Success(VideoUnsupported)
  }

  /** `comp.data.images && comp.data.images.map(...)` inside the gallery wrapper */
  function RenderGallery(images: Option<Value>): (r: Result<Item, Fault>)
    ensures r.Success? ==> r.value.GalleryItem?
    ensures images.Some? && images.value.List? ==> r == Success(GalleryItem(images.value.items))
    ensures r.Failure? <==> images.Some? && images.value.Str? && images.value.s != ""
    ensures images.None? || images == Some(Str("")) ==> r == Success(GalleryItem([]))
    ensures r.Failure? ==> r.error == ImagesNotMappable
  {
    match images
    case None => Success(GalleryItem([]))
    case Some(List(xs)) => Success(GalleryItem(xs))
    case Some(Str(s)) => if s == "" then Success(GalleryItem([])) else Failure(ImagesNotMappable)
  }

  /** The callback of `profile.components.map(...)`: nothing, one item, or a throw */
  function RenderBlock(b: Block): (r: Result<Option<Item>, Fault>)
    ensures !b.isEnabled || !IsKnownKind(b.kind) ==> r == Success(None)
    ensures b.isEnabled && IsKnownKind(b.kind) && r.Success? ==> r.value.Some?
    ensures b.isEnabled && IsKnownKind(b.kind) && b.data.None? ==> r == Failure(DataUndefined(b.kind))
    ensures r.Failure? ==>
      || r.error == DataUndefined(b.kind)
      || (b.kind == "video" && r.error == UrlNotSplittable)
      || (b.kind == "gallery" && r.error == ImagesNotMappable)
  {
    if !b.isEnabled || !IsKnownKind(b.kind) then Success(None)
    else match b.data
      case None => Failure(DataUndefined(b.kind))
      case Some(d) =>
        if b.kind == "link" then Success(Some(LinkItem(Get(d, "label"), Get(d, "url"))))
        else if b.kind == "social" then Success(Some(SocialItem(Get(d, "label"), Get(d, "url"))))
        else if b.kind == "text" then Success(Some(TextItem(Get(d, "text"))))
        else
          var r := if b.kind == "video" then RenderVideo(Get(d, "url")) else RenderGallery(Get(d, "images"));
          match r
          case Success(item) => Success(Some(item))
          case Failure(f) => Failure(f)
  }

  /** The rendered list: items in document order, or the first throw */
  function RenderAll(bs: seq<Block>): (r: Result<seq<Item>, Fault>)
    ensures r.Success? <==> forall i :: 0 <= i < |bs| ==> RenderBlock(bs[i]).Success?
    ensures r.Success? ==> |r.value| <= |bs|
    ensures r.Failure? ==> exists i :: 0 <= i < |bs| && RenderBlock(bs[i]) == Failure(r.error)
                                  && forall j :: 0 <= j < i ==> RenderBlock(bs[j]).Success?
  {
    if |bs| == 0 then Success([])
    else match RenderBlock(bs[0])
      case Failure(f) => Failure(f)
      case Success(o) =>
        match RenderAll(bs[1..])
        case Failure(f) => Failure(f)
        case Success(rest) => Success((if o.Some? then [o.value] else []) + rest)
  }

  /** `profile.components && profile.components.map(...)` */
  function RenderComponents(p: Profile): (r: Result<seq<Item>, Fault>)
    ensures p.components.None? ==> r == Success([])
    ensures p.components.Some? ==> r == RenderAll(p.components.value)
    ensures r.Success? ==> |r.value| <= |p.components.GetOr([])|
  {
    match p.components
    case None => Success([])
    case Some(bs) => RenderAll(bs)
  }

  /** The blocks that produce an item: enabled, of a known kind */
  function Shown(bs: seq<Block>): (r: seq<Block>)
    ensures forall i :: 0 <= i < |r| ==> r[i].isEnabled && IsKnownKind(r[i].kind)
  {
    if |bs| == 0 then []
    else (if bs[0].isEnabled && IsKnownKind(bs[0].kind) then [bs[0]] else []) + Shown(bs[1..])
  }

  function Enabled(bs: seq<Block>): (r: seq<Block>)
    ensures forall i :: 0 <= i < |r| ==> r[i].isEnabled
  {
    if |bs| == 0 then []
    else (if bs[0].isEnabled then [bs[0]] else []) + Enabled(bs[1..])
  }

  // ---------------------------------------------------------------- dispatch properties

  /** Disabled blocks and blocks of an unknown kind render as nothing and never throw. */
  lemma SkippedBlocksRenderNothing(b: Block)
    requires !b.isEnabled || !IsKnownKind(b.kind)
    ensures RenderBlock(b) == Success(None)
  {
  }

  /** Dropping the disabled blocks first gives the same page. */
  lemma {:induction false} DisabledBlocksIgnored(bs: seq<Block>)
    ensures RenderAll(Enabled(bs)) == RenderAll(bs)
  {
    if |bs| > 0 {
      DisabledBlocksIgnored(bs[1..]);
      if bs[0].isEnabled {
        var e := [bs[0]] + Enabled(bs[1..]);
        assert e[0] == bs[0] && e[1..] == Enabled(bs[1..]);
      } else {
        assert RenderBlock(bs[0]) == Success(None);
        assert Enabled(bs) == Enabled(bs[1..]);
        if RenderAll(bs[1..]).Success? {
          assert [] + RenderAll(bs[1..]).value == RenderAll(bs[1..]).value;
        }
      }
    }
  }

  /** The items of a page listed in document order against the blocks they come from */
  ghost predicate ItemsMatch(items: seq<Item>, shown: seq<Block>) {
    && |items| == |shown|
    && forall i :: 0 <= i < |shown| ==> RenderBlock(shown[i]) == Success(Some(items[i]))
  }

  /** An item in front of the items, rendered from a block in front of the blocks */
  lemma ItemsMatchCons(item: Item, b: Block, items: seq<Item>, shown: seq<Block>)
    requires RenderBlock(b) == Success(Some(item)) && ItemsMatch(items, shown)
    ensures ItemsMatch([item] + items, [b] + shown)
  {
    var xs, bs := [item] + items, [b] + shown;
    forall i | 0 <= i < |bs| ensures RenderBlock(bs[i]) == Success(Some(xs[i])) {
      if i > 0 {
        assert bs[i] == shown[i - 1] && xs[i] == items[i - 1];
      }
    }
  }

  /** A block shown in front of a page puts its item in front of the items. */
  lemma ShownBlockStep(bs: seq<Block>)
    requires |bs| > 0 && RenderAll(bs).Success? && bs[0].isEnabled && IsKnownKind(bs[0].kind)
    ensures RenderBlock(bs[0]).Success? && RenderBlock(bs[0]).value.Some?
    ensures RenderAll(bs).value == [RenderBlock(bs[0]).value.value] + RenderAll(bs[1..]).value
    ensures Shown(bs) == [bs[0]] + Shown(bs[1..])
  {
  }

  /** A block not shown in front of a page changes neither the items nor the blocks shown. */
  lemma SkippedBlockStep(bs: seq<Block>)
    requires |bs| > 0 && RenderAll(bs).Success? && !(bs[0].isEnabled && IsKnownKind(bs[0].kind))
    ensures RenderAll(bs).value == RenderAll(bs[1..]).value
    ensures Shown(bs) == Shown(bs[1..])
  {
    assert RenderAll(bs).value == [] + RenderAll(bs[1..]).value;
    assert Shown(bs) == [] + Shown(bs[1..]);
  }

  /**
   * A page that renders lists one item per enabled block of a known kind, in
   * document order, each the rendering of that block.
   */
  lemma {:induction false} RenderedInDocumentOrder(bs: seq<Block>)
    requires RenderAll(bs).Success?
    ensures var items, shown := RenderAll(bs).value, Shown(bs);
      && |items| == |shown|
      && forall i :: 0 <= i < |shown| ==> RenderBlock(shown[i]) == Success(Some(items[i]))
  {
    if |bs| > 0 {
      RenderedInDocumentOrder(bs[1..]);
      if bs[0].isEnabled && IsKnownKind(bs[0].kind) {
        ShownBlockStep(bs);
        ItemsMatchCons(RenderBlock(bs[0]).value.value, bs[0], RenderAll(bs[1..]).value, Shown(bs[1..]));
      } else {
        SkippedBlockStep(bs);
      }
    }
  }

  /** Payload values of the types the editor writes: `url` a string, `images` a list */
  predicate WellTyped(d: Payload) {
    ("url" in d ==> d["url"].Str?) && ("images" in d ==> d["images"].List?)
  }

  /** A block the page can render without throwing */
  predicate Renderable(b: Block) {
    b.data.Some? && WellTyped(b.data.value)
  }

  /** If every block shown has well-typed data, the page renders without throwing. */
  lemma {:induction false} WellTypedBlocksRender(bs: seq<Block>)
    requires forall i :: 0 <= i < |Shown(bs)| ==> Renderable(Shown(bs)[i])
    ensures RenderAll(bs).Success?
  {
    if |bs| > 0 {
      if bs[0].isEnabled && IsKnownKind(bs[0].kind) {
        assert Shown(bs) == [bs[0]] + Shown(bs[1..]);
        assert Renderable(Shown(bs)[0]);
        forall i | 0 <= i < |Shown(bs[1..])| ensures Renderable(Shown(bs[1..])[i]) {
          assert Shown(bs[1..])[i] == Shown(bs)[i + 1];
        }
      } else {
        assert Shown(bs) == Shown(bs[1..]);
      }
      WellTypedBlocksRender(bs[1..]);
    }
  }

  /** An enabled block of a known kind with well-typed data renders as exactly one item. */
  lemma RenderableShowsOne(b: Block)
    requires b.isEnabled && IsKnownKind(b.kind) && Renderable(b)
    ensures RenderBlock(b).Success? && RenderBlock(b).value.Some?
  {
  }

  /** One disabled and one enabled block render as exactly one item. */
  lemma OneOfTwoShown(off: Block, on: Block)
    requires !off.isEnabled && on.isEnabled && IsKnownKind(on.kind) && Renderable(on)
    ensures RenderAll([off, on]).Success? && |RenderAll([off, on]).value| == 1
  {
    RenderableShowsOne(on);
    var item := RenderBlock(on).value.value;
    assert RenderBlock(off) == Success(None);
    assert [on][0] == on && [on][1..] == [];
    assert RenderAll([on]) == Success([item] + []);
    assert [off, on][1..] == [on];
    assert Enabled([on]) == [on] + Enabled([]);
    assert Enabled([off, on]) == [on];
    DisabledBlocksIgnored([off, on]);
  }

  /** A single item as the optional item of a block, a throw unchanged */
  function Lifted(r: Result<Item, Fault>): Result<Option<Item>, Fault> {
    match r
    case Success(i) => Success(Some(i))
    case Failure(f) => Failure(f)
  }

  /**
   * Links and social links show their label and point at `data.url`; text shows
   * `data.text`; a video and a gallery show what the embed of `data.url` and the
   * mapping of `data.images` give, or throw what those throw.
   */
  lemma LinkAndTextItems(b: Block)
    requires b.isEnabled && b.data.Some?
    ensures var d := b.data.value;
      && (b.kind == "link" ==> RenderBlock(b) == Success(Some(LinkItem(Get(d, "label"), Get(d, "url")))))
      && (b.kind == "social" ==> RenderBlock(b) == Success(Some(SocialItem(Get(d, "label"), Get(d, "url")))))
      && (b.kind == "text" ==> RenderBlock(b) == Success(Some(TextItem(Get(d, "text")))))
      && (b.kind == "video" ==> RenderBlock(b) == Lifted(RenderVideo(Get(d, "url"))))
      && (b.kind == "gallery" ==> RenderBlock(b) == Lifted(RenderGallery(Get(d, "images"))))
  {
  }

  /** A gallery shows one image per entry of `images`, in order. */
  lemma GalleryShowsEveryImage(b: Block, xs: seq<string>)
    requires b.isEnabled && b.kind == "gallery" && b.data.Some? && Get(b.data.value, "images") == Some(List(xs))
    ensures RenderBlock(b) == Success(Some(GalleryItem(xs)))
  {
  }

  /** After an upload the gallery shows the earlier images first, then the uploaded ones. */
  lemma UploadedImagesShownAfterExisting(b: Block, files: seq<string>)
    requires b.isEnabled && b.kind == "gallery"
    ensures RenderBlock(b.(data := Some(Edited(b.data, UploadImages(files)))))
         == Success(Some(GalleryItem(CurrentImages(b.data) + files)))
  {
  }

  // ---------------------------------------------------------------- video

  /** A string url embeds exactly when it names a supported provider; otherwise the fallback shows. */
  lemma VideoEmbedsOnlySupported(u: string)
    ensures RenderVideo(Some(Str(u))).Success?
    ensures RenderVideo(Some(Str(u))).value.VideoEmbed? <==> IsSupportedVideo(u)
    ensures IsSupportedVideo(u) ==> RenderVideo(Some(Str(u))).value.src == EmbedPrefix + VideoId(u)
  {
  }

  /** A block without a url shows the fallback. */
  lemma MissingUrlUnsupported()
    ensures RenderVideo(None) == Success(VideoUnsupported)
  {
  }

  /** No occurrence of `t` anywhere in `s` */
  ghost predicate Lacks(s: string, t: string) {
    forall i: nat :: !OccursAt(s, t, i)
  }

  /** A string that misses one character of `t` has no occurrence of `t`. */
  lemma MissingCharLacks(s: string, t: string, k: nat)
    requires k < |t| && t[k] !in s
    ensures Lacks(s, t) && !Contains(s, t)
  {
    forall i: nat ensures !OccursAt(s, t, i) {
      if i + |t| <= |s| {
        assert s[i..i + |t|][k] == s[i + k];
      }
    }
    ContainsIff(s, t);
  }

  lemma LacksNoSplit(s: string, t: string)
    requires |t| > 0 && Lacks(s, t)
    ensures Split(s, t) == [s]
  {
  }

  /** `v=` starts at `j` exactly when those two characters stand there. */
  lemma PairOccursAt(s: string, j: nat)
    ensures OccursAt(s, "v=", j) <==> j + 2 <= |s| && s[j] == 'v' && s[j + 1] == '='
  {
    if j + 2 <= |s| {
      assert s[j..j + 2] == [s[j], s[j + 1]];
    }
  }

  /** In `a + "v=" + b` with no `v=` inside `a`, the first `v=` is the one after `a`. */
  lemma FirstOccurrenceAfter(a: string, b: string)
    requires Lacks(a, "v=")
    ensures IndexOf(a + ("v=" + b), "v=", 0) == Some(|a|)
  {
    var s := a + ("v=" + b);
    PairOccursAt(s, |a|);
    var r := IndexOf(s, "v=", 0);
    assert r.Some? && r.value <= |a|;
    var j := r.value;
    if j < |a| {
      PairOccursAt(s, j);
      if j + 1 < |a| {
        PairOccursAt(a, j);
      }
    }
  }

  /**
   * `watch?v=ID`: when the url is `prefix + "v=" + id + rest` with no `v=`
   * before it, a non-empty `id` without `v=`, and `rest` empty or starting a
   * new `v=`, the id is `id`.
   */
  lemma VideoIdFromQuery(prefix: string, id: string, rest: string)
    requires Lacks(prefix, "v=") && Lacks(id, "v=") && id != ""
    requires rest == [] || (|rest| >= 2 && rest[..2] == "v=")
    ensures VideoId(prefix + "v=" + id + rest) == id
  {
    var url := prefix + "v=" + id + rest;
    var tail := id + rest;
    assert url == prefix + ("v=" + tail);
    FirstOccurrenceAfter(prefix, tail);
    assert url[|prefix| + 2..] == tail;
    assert url[..|prefix|] == prefix;
    var query := Split(url, "v=");
    assert query == [prefix] + Split(tail, "v=");
    if rest == [] {
      assert tail == id;
      LacksNoSplit(id, "v=");
    } else {
      assert tail == id + ("v=" + rest[2..]);
      FirstOccurrenceAfter(id, rest[2..]);
      assert tail[..|id|] == id;
      assert Split(tail, "v=")[0] == id;
    }
    assert query[1] == id;
  }

  /**
   * `v=` followed by nothing or by another `v=`: the empty query piece falls back
   * to the last path segment.
   */
  lemma VideoIdEmptyQuery(prefix: string, rest: string)
    requires Lacks(prefix, "v=")
    requires rest == [] || (|rest| >= 2 && rest[..2] == "v=")
    ensures VideoId(prefix + "v=" + rest) == Last(Split(prefix + "v=" + rest, "/"))
  {
    var url := prefix + "v=" + rest;
    assert url == prefix + ("v=" + rest);
    FirstOccurrenceAfter(prefix, rest);
    assert url[|prefix| + 2..] == rest;
    assert url[..|prefix|] == prefix;
    assert Split(url, "v=") == [prefix] + Split(rest, "v=");
    if rest == [] {
      assert IndexOf("", "v=", 0) == None;
    } else {
      assert rest == [] + ("v=" + rest[2..]);
      FirstOccurrenceAfter([], rest[2..]);
      assert Split(rest, "v=")[0] == rest[..0];
    }
    assert Split(url, "v=")[1] == "";
  }

  /** `youtu.be/ID`: without any `v=`, the id is the text after the last `/`. */
  lemma VideoIdFromPath(prefix: string, id: string)
    requires Lacks(prefix + "/" + id, "v=") && '/' !in id
    ensures VideoId(prefix + "/" + id) == id
  {
    var url := prefix + "/" + id;
    LacksNoSplit(url, "v=");
    LastSegment(prefix, id);
  }

  lemma {:induction false} LastSegment(prefix: string, id: string)
    requires '/' !in id
    ensures Last(Split(prefix + "/" + id, "/")) == id
    decreases |prefix|
  {
    var s := prefix + "/" + id;
    var r := IndexOf(s, "/", 0);
    CharOccursAt(s, '/', |prefix|);
    var i := r.value;
    CharOccursAt(s, '/', i);
    var rest := s[i + 1..];
    var tail := Split(rest, "/");
    assert Split(s, "/") == [s[..i]] + tail;
    assert Last(Split(s, "/")) == Last(tail);
    if i == |prefix| {
      assert rest == id;
      NoCharNoSplit(id, '/');
    } else {
      assert i < |prefix| && prefix[i] == '/';
      assert rest == prefix[i + 1..] + "/" + id;
      LastSegment(prefix[i + 1..], id);
    }
  }

  lemma ContainsMiddle(a: string, t: string, b: string)
    ensures Contains(a + t + b, t)
  {
    assert (a + t + b)[|a|..|a| + |t|] == t;
    assert OccursAt(a + t + b, t, |a|);
    ContainsIff(a + t + b, t);
  }

  lemma WatchPrefixNamesYoutube()
    ensures "https://www." + "youtube" + ".com/watch?v=" == "https://www.youtube.com/watch?v="
  {
  }

  /** A `watch?v=` link embeds the id after `v=`. */
  lemma WatchUrlEmbeds(id: string)
    requires id != "" && '=' !in id
    ensures RenderVideo(Some(Str("https://www.youtube.com/watch?v=" + id))) == Success(VideoEmbed(EmbedPrefix + id))
  {
    WatchUrlId(id);
    WatchUrlSupported(id);
  }

  /** `VideoIdFromQuery` for a url that ends with the id */
  lemma VideoIdAtEnd(prefix: string, id: string)
    requires Lacks(prefix, "v=") && Lacks(id, "v=") && id != ""
    ensures VideoId(prefix + "v=" + id) == id
  {
    VideoIdFromQuery(prefix, id, []);
    assert prefix + "v=" + id + [] == prefix + "v=" + id;
  }

  lemma WatchPrefixFacts()
    ensures '=' !in "https://www.youtube.com/watch?"
    ensures "https://www.youtube.com/watch?" + "v=" == "https://www.youtube.com/watch?v="
  {
  }

  lemma WatchUrlId(id: string)
    requires id != "" && '=' !in id
    ensures VideoId("https://www.youtube.com/watch?v=" + id) == id
  {
    var prefix := "https://www.youtube.com/watch?";
    WatchPrefixFacts();
    MissingCharLacks(prefix, "v=", 1);
    MissingCharLacks(id, "v=", 1);
    VideoIdAtEnd(prefix, id);
    assert prefix + "v=" + id == (prefix + "v=") + id;
  }

  lemma WatchUrlSupported(id: string)
    ensures IsSupportedVideo("https://www.youtube.com/watch?v=" + id)
  {
    ContainsMiddle("https://www.", "youtube", ".com/watch?v=" + id);
    WatchPrefixNamesYoutube();
    assert "https://www." + "youtube" + (".com/watch?v=" + id) == "https://www." + "youtube" + ".com/watch?v=" + id;
  }

  lemma ShortPrefixFacts()
    ensures '=' !in "https://youtu.be/"
    ensures "https://youtu.be" + "/" == "https://youtu.be/"
    ensures "https://" + "youtu.be" == "https://youtu.be"
  {
  }

  /** A `youtu.be/` short link's id is its last path segment. */
  lemma ShortUrlId(id: string)
    requires '=' !in id && '/' !in id
    ensures VideoId("https://youtu.be/" + id) == id
  {
    var host := "https://youtu.be";
    ShortPrefixFacts();
    var url := host + "/" + id;
    assert url == "https://youtu.be/" + id;
    assert '=' !in url by {
      assert url == "https://youtu.be/" + id;
    }
    MissingCharLacks(url, "v=", 1);
    VideoIdFromPath(host, id);
  }

  /** A `youtu.be/` short link names a supported provider. */
  lemma ShortUrlSupported(id: string)
    ensures IsSupportedVideo("https://youtu.be/" + id)
  {
    ShortPrefixFacts();
    ContainsMiddle("https://", "youtu.be", "/" + id);
    assert "https://" + "youtu.be" + ("/" + id) == ("https://" + "youtu.be" + "/") + id;
  }

  /** A `youtu.be/` short link embeds the last path segment. */
  lemma ShortUrlEmbeds(id: string)
    requires '=' !in id && '/' !in id
    ensures RenderVideo(Some(Str("https://youtu.be/" + id))) == Success(VideoEmbed(EmbedPrefix + id))
  {
    ShortUrlId(id);
    ShortUrlSupported(id);
  }

  lemma VimeoExample()
    ensures RenderVideo(Some(Str("https://vimeo.com/123"))) == Success(VideoUnsupported)
  {
    MissingCharLacks("https://vimeo.com/123", "youtube", 0);
    MissingCharLacks("https://vimeo.com/123", "youtu.be", 0);
  }

  // ---------------------------------------------------------------- header

  /** The header policy: whether the avatar circle shows, and the Save Contact button's colour */
  datatype Header = Header(showAvatar: bool, accent: string)

  const DefaultAccent := "#c6ff00"

  /** `profile.theme?.[key]` */
  function ThemeValue(p: Profile, key: string): (r: Option<string>)
    ensures r.Some? <==> p.theme.Some? && key in p.theme.value
    ensures r.Some? ==> r.value == p.theme.value[key]
  {
    if p.theme.Some? && key in p.theme.value then Some(p.theme.value[key]) else None
  }

  /** The header: avatar unless the layout is minimal; accent `theme.primaryColor || '#c6ff00'` */
  function RenderHeader(p: Profile): (h: Header)
    ensures h.accent != ""
    ensures ThemeValue(p, "layout") == Some("minimal") ==> !h.showAvatar
  {
    var color := ThemeValue(p, "primaryColor");
    Header(ThemeValue(p, "layout") != Some("minimal"),
           if color.Some? && color.value != "" then color.value else DefaultAccent)
  }

  /** The avatar is hidden exactly under the minimal layout; the accent falls back to `#c6ff00`. */
  lemma HeaderPolicy(p: Profile)
    ensures !RenderHeader(p).showAvatar <==> ThemeValue(p, "layout") == Some("minimal")
    ensures RenderHeader(p).accent == DefaultAccent <==>
      ThemeValue(p, "primaryColor") in {None, Some(""), Some(DefaultAccent)}
    ensures RenderHeader(p).accent != ""
    ensures ThemeValue(p, "primaryColor").Some? && ThemeValue(p, "primaryColor").value != "" ==>
      RenderHeader(p).accent == ThemeValue(p, "primaryColor").value
  {
  }

  /** Picking a layout or a palette colour in the editor shows on the public header. */
  lemma ThemeEditsReachHeader(p: Profile, i: nat)
    requires i < |Palette|
    ensures !RenderHeader(SetTheme(Some(p), Layout, "minimal").value).showAvatar
    ensures RenderHeader(SetTheme(Some(p), PrimaryColor, Palette[i]).value).accent == Palette[i]
    ensures RenderHeader(SetTheme(Some(p), PrimaryColor, Palette[i]).value).showAvatar == RenderHeader(p).showAvatar
  {
  }
}
