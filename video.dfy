/** The hover-video protocol of `setVideoState` (components/Gallery.tsx:116-175 and
    framer/GalleryComponent.tsx:312-365): one shared video element, re-pointed at the
    video of the hovered cell's catalog item, with a request counter that lets only the
    latest request publish "video active". The element follows the HTML media element
    rules the protocol depends on: `load()` pauses and rejects pending play promises with
    AbortError, `pause()` of a playing element does the same, `play()` unpauses and adds a
    pending promise, and pending promises are resolved together when playback starts or
    rejected with NotSupportedError when the media fails. */
module VideoHotSwap {
  import opened GalleryTypes
  import opened CellAddressing

  /** The video `getProject(cell)?.video` yields, kept only when it is truthy: no cell, an
      item without a video and an empty URL all take the "no video" path. */
  function VideoFor(catalog: seq<MediaItem>, cell: Option<CellId>): (v: Option<string>)
    requires |catalog| > 0
  {
    match cell
    case None => None
    case Some(c) =>
      var item := catalog[CatalogIndex(c, |catalog|)];
      if item.video.Some? && item.video.value != "" then item.video else None
  }

  /** A cell has a video exactly when its catalog item carries a non-empty URL, and then
      the video is that URL. */
  lemma VideoForCell(catalog: seq<MediaItem>, c: CellId)
    requires |catalog| > 0
    ensures var item := catalog[CatalogIndex(c, |catalog|)];
            VideoFor(catalog, Some(c)).Some? <==> item.video.Some? && item.video.value != ""
    ensures VideoFor(catalog, Some(c)).Some? ==> VideoFor(catalog, Some(c)) == catalog[CatalogIndex(c, |catalog|)].video
    ensures VideoFor(catalog, None) == None
  {
  }

  /** Cells that address the same catalog item want the same video: the grid repeats
      every |catalog| columns and rows and along the (-3, 1) diagonal. */
  lemma VideoForPeriodic(catalog: seq<MediaItem>, c: CellId)
    requires |catalog| > 0
    ensures VideoFor(catalog, Some(CellId(c.x + |catalog|, c.y))) == VideoFor(catalog, Some(c))
    ensures VideoFor(catalog, Some(CellId(c.x, c.y + |catalog|))) == VideoFor(catalog, Some(c))
    ensures VideoFor(catalog, Some(CellId(c.x - ROW_STRIDE, c.y + 1))) == VideoFor(catalog, Some(c))
  {
    CatalogIndexPeriodic(c, |catalog|);
  }

  /** Request tokens awaiting a play promise: issued ones (1 to n), oldest first. */
  ghost predicate Tokens(p: seq<nat>, n: nat)
  {
    (forall i :: 0 <= i < |p| ==> 1 <= p[i] <= n)
    && (forall i, j :: 0 <= i < j < |p| ==> p[i] < p[j])
  }

  /** Issuing token n + 1 keeps the suspended tokens valid, none of them is the new one,
      and the new one may join them at the end. */
  lemma TokensIssue(p: seq<nat>, n: nat)
    requires Tokens(p, n)
    ensures Tokens(p, n + 1) && Tokens(p + [n + 1], n + 1) && n + 1 !in p
  {
    var q := p + [n + 1];
    forall i, j | 0 <= i < j < |q|
      ensures q[i] < q[j]
    {
      if j == |p| {
        assert q[i] == p[i];
      }
    }
  }

  /** The initial `uHoveredCellId`, a cell no pointer reaches in practice. */
  const NO_CELL: CellId := CellId(-999, -999)

  /** The controller: the request counter, the two uniforms it writes, the shared video
      element, and the requests awaiting the element's pending play promises. */
  class VideoController {
    const catalog: seq<MediaItem>
    const variant: Variant
    /** `videoRequestNonce`: the token of the latest request. */
    var nonce: nat
    /** `uIsVideoActive`. */
    var isVideoActive: bool
    /** `uHoveredCellId`. */
    var hoveredCellId: CellId
    /** The element's `src`, `paused` and `error != null`. */
    var src: string
    var paused: bool
    var error: bool
    /** Tokens of the requests suspended on a pending play promise, oldest first. */
    var pending: seq<nat>
    /** The cell of the latest request (None for a pointer-leave request). */
    ghost var latest: Option<CellId>

    ghost predicate Valid()
      reads this
    {
      |catalog| > 0
      && Tokens(pending, nonce)
      && (paused ==> pending == [])
      && (nonce == 0 ==> latest == None && !isVideoActive)
      // the flag is only ever on for the video of the cell the latest request named
      && (isVideoActive ==> latest == Some(hoveredCellId) && VideoFor(catalog, latest) == Some(src))
      // the latest request, while suspended, has already published its cell and source
      && (nonce in pending ==> latest == Some(hoveredCellId) && VideoFor(catalog, latest) == Some(src))
    }

    constructor(catalog: seq<MediaItem>, variant: Variant)
      requires |catalog| > 0
      ensures Valid()
      ensures this.catalog == catalog && this.variant == variant
      ensures nonce == 0 && !isVideoActive && hoveredCellId == NO_CELL
      ensures src == "" && paused && !error && pending == [] && latest == None
    {
      this.catalog := catalog;
      this.variant := variant;
      nonce := 0;
      isVideoActive := false;
      hoveredCellId := NO_CELL;
      src := "";
      paused := true;
      error := false;
      pending := [];
      latest := None;
    }

    /** `video.pause()` on a playing element: pending play promises are rejected with
        AbortError, which every suspended request ignores. */
    method Pause()
      requires !paused
      modifies this`paused, this`pending
      ensures paused && pending == []
    {
      paused := true;
      pending := [];
    }

    /** `video.src = s; video.load()`: the element clears its error, pauses and rejects
        pending play promises with AbortError, which every suspended request ignores. */
    method Load(s: string)
      modifies this`src, this`error, this`paused, this`pending
      ensures src == s && !error && paused && pending == []
    {
      src := s;
      error := false;
      paused := true;
      pending := [];
    }

    /** `video.play()` by request `token`: the element unpauses and the request suspends
        on a new pending play promise. */
    method Play(token: nat)
      modifies this`paused, this`pending
      ensures !paused && pending == old(pending) + [token]
    {
      paused := false;
      pending := pending + [token];
    }

    /** `setVideoState(cell)`: the synchronous part up to the first `await`. */
    method Request(cell: Option<CellId>)
      requires Valid()
      modifies this
      ensures Valid()
      ensures nonce == old(nonce) + 1 && latest == cell
      ensures VideoFor(catalog, cell).None? ==>
                !isVideoActive && paused && pending == [] && src == old(src) && error == old(error)
                && hoveredCellId == old(hoveredCellId)
      ensures VideoFor(catalog, cell).Some? ==>
                src == VideoFor(catalog, cell).value && !error && !paused && hoveredCellId == cell.value
      ensures VideoFor(catalog, cell).Some? ==>
                var reload := old(src) != VideoFor(catalog, cell).value || old(error);
                if variant == Framer && !reload && !old(paused) then
                  isVideoActive && pending == old(pending)
                else
                  isVideoActive == old(isVideoActive)
                  && pending == (if reload then [] else old(pending)) + [nonce]
    {
      TokensIssue(pending, nonce);
      nonce := nonce + 1;
      var currentNonce := nonce;
      latest := cell;
      var newSrc := VideoFor(catalog, cell);
      if newSrc.None? {
        // the re-check of line 134 runs before any await, so it always holds
        assert currentNonce == nonce;
        isVideoActive := false;
        if !paused {
          Pause();
        }
        return;
      }
      // the stale check of line 144 runs before any await: it never returns
      assert currentNonce == nonce;
      if src != newSrc.value || error {
        Load(newSrc.value);
      }
      hoveredCellId := cell.value;
      if variant == Standalone || paused {
        // `await video.play()`
        Play(currentNonce);
      } else {
        // the element is already playing: the Framer component skips `play()` and
        // finishes synchronously as the latest request
        isVideoActive := true;
      }
    }

    /** Playback starts: every pending play promise is resolved, oldest first, and each
        suspended request resumes after its `await`. This is the corrected resumption:
        only the latest request acts (turns the flag on); an older one leaves the shared
        element alone, because a newer request now owns it. */
    method PlaybackStarts()
      requires Valid() && !paused
      modifies this
      ensures Valid()
      ensures pending == [] && !paused
      ensures isVideoActive == (old(isVideoActive) || nonce in old(pending))
      ensures nonce == old(nonce) && hoveredCellId == old(hoveredCellId) && latest == old(latest)
      ensures src == old(src) && error == old(error)
    {
      var taken := pending;
      pending := [];
      var i := 0;
      while i < |taken|
        invariant 0 <= i <= |taken|
        invariant Valid() && !paused && pending == []
        invariant nonce in taken ==> latest == Some(hoveredCellId) && VideoFor(catalog, latest) == Some(src)
        invariant isVideoActive == (old(isVideoActive) || nonce in taken[..i])
        invariant nonce == old(nonce) && hoveredCellId == old(hoveredCellId) && latest == old(latest)
        invariant src == old(src) && error == old(error)
      {
        assert taken[..i + 1] == taken[..i] + [taken[i]];
        if taken[i] == nonce {
          isVideoActive := true;
        }
        i := i + 1;
      }
      assert taken[..i] == taken;
    }

    /** Playback starts, with the resumption as written (Gallery.tsx:158-163,
        GalleryComponent.tsx:351-355): a stale request pauses the shared element if it is
        playing, whoever it now plays for. */
    method PlaybackStartsAsWritten()
      requires Valid() && !paused
      modifies this
      ensures Valid()
      ensures pending == []
      ensures paused <==> exists j :: 0 <= j < |old(pending)| && old(pending)[j] != nonce
      ensures isVideoActive == (old(isVideoActive) || nonce in old(pending))
      ensures nonce == old(nonce) && hoveredCellId == old(hoveredCellId) && latest == old(latest)
      ensures src == old(src) && error == old(error)
    {
      var taken := pending;
      pending := [];
      var i := 0;
      while i < |taken|
        invariant 0 <= i <= |taken|
        invariant Valid() && pending == []
        invariant nonce in taken ==> latest == Some(hoveredCellId) && VideoFor(catalog, latest) == Some(src)
        invariant isVideoActive == (old(isVideoActive) || nonce in taken[..i])
        invariant paused <==> exists j :: 0 <= j < i && taken[j] != nonce
        invariant nonce == old(nonce) && hoveredCellId == old(hoveredCellId) && latest == old(latest)
        invariant src == old(src) && error == old(error)
      {
        assert taken[..i + 1] == taken[..i] + [taken[i]];
        if taken[i] == nonce {
          isVideoActive := true;
        } else {
          if !paused {
            Pause();
          }
        }
        i := i + 1;
      }
      assert taken[..i] == taken;
    }

    /** The media fails: the element records an error and rejects every pending play
        promise with NotSupportedError; the latest request, if among them, clears the
        flag (Gallery.tsx:165-174), the others do nothing. */
    method MediaFails()
      requires Valid()
      modifies this
      ensures Valid()
      ensures error && pending == []
      ensures isVideoActive == (old(isVideoActive) && nonce !in old(pending))
      ensures nonce == old(nonce) && hoveredCellId == old(hoveredCellId) && latest == old(latest)
      ensures src == old(src) && paused == old(paused)
    {
      var taken := pending;
      error := true;
      pending := [];
      var i := 0;
      while i < |taken|
        invariant 0 <= i <= |taken|
        invariant Valid() && error && pending == []
        invariant isVideoActive == (old(isVideoActive) && nonce !in taken[..i])
        invariant nonce == old(nonce) && hoveredCellId == old(hoveredCellId) && latest == old(latest)
        invariant src == old(src) && paused == old(paused)
      {
        assert taken[..i + 1] == taken[..i] + [taken[i]];
        if taken[i] == nonce {
          isVideoActive := false;
        }
        i := i + 1;
      }
      assert taken[..i] == taken;
    }
  }

  /** Three quick hovers over cells with different videos, then the element plays: only
      the last request publishes, and the shader shows that cell's video. */
  method LatestRequestWins(catalog: seq<MediaItem>, variant: Variant, a: CellId, b: CellId, c: CellId)
    returns (active: bool, shown: CellId, playing: string)
    requires |catalog| > 0
    requires VideoFor(catalog, Some(a)).Some? && VideoFor(catalog, Some(b)).Some? && VideoFor(catalog, Some(c)).Some?
    requires VideoFor(catalog, Some(b)) != VideoFor(catalog, Some(a))
    requires VideoFor(catalog, Some(c)) != VideoFor(catalog, Some(b))
    ensures active && shown == c && Some(playing) == VideoFor(catalog, Some(c))
  {
    var v := new VideoController(catalog, variant);
    v.Request(Some(a));
    v.Request(Some(b));
    v.Request(Some(c));
    assert v.pending == [3];
    v.PlaybackStarts();
    return v.isVideoActive, v.hoveredCellId, v.src;
  }

  /** Leaving the surface switches the video off whatever is still pending. */
  method LeaveSwitchesOff(catalog: seq<MediaItem>, variant: Variant, a: CellId)
    returns (active: bool, paused: bool)
    requires |catalog| > 0 && VideoFor(catalog, Some(a)).Some?
    ensures !active && paused
  {
    var v := new VideoController(catalog, variant);
    v.Request(Some(a));
    v.Request(None);
    assert v.pending == [];
    return v.isVideoActive, v.paused;
  }

  /** As written, moving straight between two cells of the same catalog item before the
      first play promise settles ends with the flag on and the element paused: the
      stale first request pauses the video the second request is showing. */
  method StalePauseFreezesVideo(catalog: seq<MediaItem>, variant: Variant)
    returns (active: bool, paused: bool)
    requires |catalog| > 0 && VideoFor(catalog, Some(CellId(0, 0))).Some?
    ensures active && paused
  {
    var v := new VideoController(catalog, variant);
    VideoForPeriodic(catalog, CellId(0, 0));
    v.Request(Some(CellId(0, 0)));
    v.Request(Some(CellId(|catalog|, 0)));
    assert 1 in v.pending && 1 != v.nonce;
    v.PlaybackStartsAsWritten();
    return v.isVideoActive, v.paused;
  }

  /** With the corrected resumption, the same sequence ends with the video playing. */
  method SameItemKeepsPlaying(catalog: seq<MediaItem>, variant: Variant)
    returns (active: bool, paused: bool)
    requires |catalog| > 0 && VideoFor(catalog, Some(CellId(0, 0))).Some?
    ensures active && !paused
  {
    var v := new VideoController(catalog, variant);
    VideoForPeriodic(catalog, CellId(0, 0));
    v.Request(Some(CellId(0, 0)));
    v.Request(Some(CellId(|catalog|, 0)));
    v.PlaybackStarts();
    return v.isVideoActive, v.paused;
  }
}
