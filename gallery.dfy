/** The image lightbox of a listing's detail view (openLightbox, prevImage,
    nextImage, closeLightbox): a list of image URLs and the position shown,
    with wrap-around navigation. */
module Gallery {
  import opened Common
  import opened Listings

  /** prevImage: one back, from the first image to the last. */
  function PrevIndex(i: int, n: nat): (j: int)
    ensures 0 <= i < n ==> 0 <= j < n && j == (i - 1 + n) % n
  {
    if i > 0 then i - 1 else n - 1
  }

  /** nextImage: one on, from the last image to the first. */
  function NextIndex(i: int, n: nat): (j: int)
    ensures 0 <= i < n ==> 0 <= j < n && j == (i + 1) % n
    ensures j == 0 || j == i + 1
  {
    if i < n - 1 then i + 1 else 0
  }

  /** Going on and then back, or back and then on, returns to the same
      image. */
  lemma NavigationInverse(i: int, n: nat)
    requires 0 <= i < n
    ensures PrevIndex(NextIndex(i, n), n) == i
    ensures NextIndex(PrevIndex(i, n), n) == i
  {
  }

  /** The position after pressing Next `steps` times. */
  function NextAfter(i: int, n: nat, steps: nat): int
    decreases steps
  {
    if steps == 0 then i else NextAfter(NextIndex(i, n), n, steps - 1)
  }

  lemma {:induction false} NextAfterWalks(i: int, n: nat, steps: nat)
    requires 0 <= i && i + steps < n
    ensures NextAfter(i, n, steps) == i + steps
    decreases steps
  {
    if steps > 0 {
      NextAfterWalks(i + 1, n, steps - 1);
    }
  }

  lemma {:induction false} NextAfterSplit(i: int, n: nat, a: nat, b: nat)
    ensures NextAfter(i, n, a + b) == NextAfter(NextAfter(i, n, a), n, b)
    decreases a
  {
    if a > 0 {
      NextAfterSplit(NextIndex(i, n), n, a - 1, b);
    }
  }

  /** Pressing Next once per image comes back to the image shown first. */
  lemma FullCycle(i: int, n: nat)
    requires 0 <= i < n
    ensures NextAfter(i, n, n) == i
  {
    NextAfterSplit(i, n, n - 1 - i, i + 1);
    NextAfterWalks(i, n, n - 1 - i);
    NextAfterSplit(n - 1, n, 1, i);
    NextAfterWalks(0, n, i);
  }

  /** The lightbox state: the images of the listing on show and the
      position of the one displayed. */
  class Lightbox {
    var images: seq<string>
    var index: int

    constructor()
      ensures images == [] && index == 0
    {
      images := [];
      index := 0;
    }

    /** The image displayed, when the position is one of the images. */
    function Shown(): (url: Option<string>)
      reads this
      ensures url.Some? <==> 0 <= index < |images|
      ensures url.Some? ==> url.value in images
    {
      if 0 <= index < |images| then Some(images[index]) else None
    }

    /** openLightbox: nothing happens for a missing listing or one without
        images; otherwise its images are shown from the requested position.
        `listing` is the result of getListing. */
    method Open(listing: Option<Listing>, imageIndex: int) returns (visible: bool)
      modifies this
      ensures visible <==> listing.Some? && listing.value.images != []
      ensures visible ==> images == listing.value.images && index == imageIndex
      ensures !visible ==> images == old(images) && index == old(index)
    {
      if listing.None? || listing.value.images == [] {
        return false;
      }
      images := listing.value.images;
      index := imageIndex;
      visible := true;
    }

    /** prevImage. */
    method Prev()
      modifies this
      ensures images == old(images)
      ensures index == PrevIndex(old(index), |images|)
    {
      if index > 0 {
        index := index - 1;
      } else {
        index := |images| - 1;
      }
    }

    /** nextImage. */
    method Next()
      modifies this
      ensures images == old(images)
      ensures index == NextIndex(old(index), |images|)
    {
      if index < |images| - 1 {
        index := index + 1;
      } else {
        index := 0;
      }
    }

    /** closeLightbox. */
    method Close()
      modifies this
      ensures images == [] && index == 0
    {
      images := [];
      index := 0;
    }
  }
}
