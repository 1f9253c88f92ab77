/**
 * The error fallback of `loadImagesDirectly` in gallery.js. On each load
 * error of an image, a fresh index starting at 0 walks a list of three
 * replacement pictures: `tryNextFallback` assigns the picture at the index
 * and advances it, or, once the list is used up, replaces the image by an
 * error message. The index lives only for one `onerror` call and the step
 * runs once per call, so every error assigns the first replacement.
 */
module Fallback {

  /** The `fallbackImages` array of gallery.js:433. */
  const FallbackImages: seq<string> := ["images/01.png", "images/03.png", "https://picsum.photos/seed/fallback/400/300.jpg"]

  /** What stands where the image was: the image with its `src`, or the error message that replaced it. */
  datatype Slot = Image(src: string) | ErrorMessage

  /** The slot together with `currentFallbackIndex`. */
  datatype FallbackState = FallbackState(slot: Slot, index: nat)

  /**
   * `tryNextFallback()` over `list`: below the end of the list the image
   * gets the picture at the index and the index advances; at the end the
   * image is replaced by the error message and the index stays. So an
   * index within the list stays within it, every picture assigned comes
   * from the list, and the error message appears exactly when the list is
   * used up.
   */
  function TryNextFallback(list: seq<string>, st: FallbackState): (r: FallbackState)
    ensures st.index <= |list| ==> r.index <= |list|
    ensures r.slot.Image? ==> r.slot.src in list && r.index == st.index + 1
    ensures r.slot == ErrorMessage <==> st.index >= |list|
  {
    if st.index < |list| then FallbackState(Image(list[st.index]), st.index + 1)
    else FallbackState(ErrorMessage, st.index)
  }

  /**
   * The `onerror` handler of gallery.js:430-453 on an image: a fresh index
   * 0, one step, and the index is dropped.
   */
  function OnError(slot: Slot): (r: Slot)
    ensures r == Image(FallbackImages[0])
  {
    TryNextFallback(FallbackImages, FallbackState(slot, 0)).slot
  }

  /**
   * The slot after `n` load errors. An error message has no `onerror`, so
   * errors stop once the image is gone.
   */
  function AfterErrors(slot: Slot, n: nat): Slot
    decreases n
  {
    if n == 0 || slot.ErrorMessage? then slot else AfterErrors(OnError(slot), n - 1)
  }

  /**
   * However many times the image fails, each failure assigns
   * `images/01.png`; the error message is never shown.
   */
  lemma {:induction false} ErrorsAlwaysGiveFirstFallback(src: string, n: nat)
    ensures n > 0 ==> AfterErrors(Image(src), n) == Image("images/01.png")
    ensures n == 0 ==> AfterErrors(Image(src), n) == Image(src)
    ensures AfterErrors(Image(src), n) != ErrorMessage
    decreases n
  {
    if n > 0 {
      ErrorsAlwaysGiveFirstFallback("images/01.png", n - 1);
    }
  }
}
