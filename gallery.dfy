/** The item modal's gallery: the images of the open item and the index of
    the one shown. Closing the modal discards the gallery; with no gallery
    the index operations do nothing. */
module Gallery {
  import opened Seqs
  import opened Options
  import opened Inventory
  import opened CartList

  const PlaceholderImage := "assets/items/placeholder.jpg"

  /** JavaScript's `a % b` for b > 0: the remainder takes the sign of a. */
  function JsRem(a: int, b: int): (r: int)
    requires b > 0
    ensures -b < r < b
    ensures a >= 0 ==> r >= 0
    ensures a < 0 ==> r <= 0
  {
    if a >= 0 then a % b else -((-a) % b)
  }

  /** `((k % n) + n) % n`, the index updateImage stores. */
  function Wrap(k: int, n: int): int
    requires n > 0
  {
    JsRem(JsRem(k, n) + n, n)
  }

  /** The one remainder of a in [0, n). */
  lemma ModUnique(a: int, n: int, q: int, r: int)
    requires n > 0 && a == q * n + r && 0 <= r < n
    ensures a % n == r
  {
    var q0 := a / n;
    var r0 := a % n;
    assert a == q0 * n + r0;
    var d := q - q0;
    assert d * n == q * n - q0 * n by { Distribute(q, q0, n); }
    assert d * n == r0 - r;
    if d >= 1 {
      NotBelow(d, n);
    } else if d <= -1 {
      NotBelow(-d, n);
    }
  }

  lemma Distribute(x: int, y: int, n: int)
    ensures (x - y) * n == x * n - y * n
  {
  }

  lemma NotBelow(d: int, n: int)
    requires d >= 1 && n > 0
    ensures d * n >= n
  {
    assert d * n == (d - 1) * n + n;
  }

  /** The double remainder is the mathematical modulus: always in [0, n),
      and k plus a multiple of n. */
  lemma WrapIsMod(k: int, n: int)
    requires n > 0
    ensures 0 <= Wrap(k, n) < n
    ensures Wrap(k, n) == k % n
  {
    if k >= 0 {
      ModUnique(k % n + n, n, 1, k % n);
    } else {
      var q := (-k) / n;
      var r := (-k) % n;
      if r == 0 {
        ModUnique(k, n, -q, 0);
        ModUnique(n, n, 1, 0);
      } else {
        ModUnique(k, n, -q - 1, n - r);
        ModUnique(n - r, n, 0, n - r);
      }
    }
  }

  /** A step by d and a step by -d return to the same image; in particular
      forward then back. */
  lemma StepsCancel(i: int, d: int, n: int)
    requires 0 <= i < n
    ensures ((i + d) % n - d) % n == i
  {
    var q := (i + d) / n;
    assert (i + d) % n - d == -q * n + i;
    ModUnique((i + d) % n - d, n, -q, i);
  }

  lemma StepBackRestores(i: int, n: int)
    requires 0 <= i < n
    ensures Wrap(Wrap(i + 1, n) - 1, n) == i
  {
    WrapIsMod(i + 1, n);
    WrapIsMod(Wrap(i + 1, n) - 1, n);
    StepsCancel(i, 1, n);
  }

  /** The images the gallery shows for an item: its own, or the placeholder. */
  function GalleryImages(item: Item): (r: seq<string>)
    ensures |r| >= 1
    ensures item.images != [] ==> r == item.images
  {
    if |item.images| > 0 then item.images else [PlaceholderImage]
  }

  class ImageGallery {
    /** Whether a gallery exists (the modal is open). */
    var active: bool
    var images: seq<string>
    var index: int

    ghost predicate Valid()
      reads this
    {
      active ==> |images| >= 1 && 0 <= index < |images|
    }

    constructor()
      ensures !active && Valid()
    {
      active := false;
      images := [];
      index := 0;
    }

    /** open(itemId): the first item with the id, at its first image; an
        unknown id leaves everything as it was. */
    method Open(itemId: string, items: seq<Item>)
      requires Valid()
      modifies this
      ensures Valid()
      ensures Find(items, itemId).None? ==> active == old(active) && images == old(images) && index == old(index)
      ensures Find(items, itemId).Some? ==>
        active && images == GalleryImages(Find(items, itemId).value) && index == 0
    {
      var found := Find(items, itemId);
      if found.None? {
        return;
      }
      images := GalleryImages(found.value);
      index := 0;
      active := true;
    }

    /** updateImage(k): show image k, wrapped into range. */
    method UpdateImage(k: int)
      requires Valid()
      modifies this
      ensures Valid() && active == old(active) && images == old(images)
      ensures active ==> index == k % |images|
      ensures !active ==> index == old(index)
    {
      if !active {
        return;
      }
      WrapIsMod(k, |images|);
      index := Wrap(k, |images|);
    }

    /** stepImage(dir): move by dir, only when there are two images or more. */
    method StepImage(dir: int)
      requires Valid()
      modifies this
      ensures Valid() && active == old(active) && images == old(images)
      ensures active && |images| >= 2 ==> index == (old(index) + dir) % |images|
      ensures !(active && |images| >= 2) ==> index == old(index)
    {
      if !active || |images| < 2 {
        return;
      }
      UpdateImage(index + dir);
    }

    /** close(): the gallery is discarded. */
    method Close()
      modifies this
      ensures !active && Valid()
    {
      active := false;
    }
  }
}
