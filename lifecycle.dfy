/** The lifecycle gates of the game component: the `startedRef` flag, the
    count of loaded images, whether `tryStartAnimation` has prepared the
    animation (installed the starter in `startAnimationRef`), and whether
    the first frame has run. Here the frame itself is abstracted to the
    `launched` flag; the class in module Game runs it. */
module Lifecycle {
  import opened Entities

  datatype Gates = Gates(started: bool, loaded: nat, prepared: bool, launched: bool)

  /** The gates when the component mounts or remounts after a reset. */
  const Mounted: Gates := Gates(false, 0, false, false)

  /** Gates that can occur: nothing is prepared before every image has
      loaded, and nothing has run before it was started and prepared. */
  predicate Consistent(g: Gates) {
    && g.loaded <= StoreSize
    && (g.prepared <==> g.loaded == StoreSize)
    && (g.launched ==> g.started && g.prepared)
  }

  /** A start, once requested, is not lost: when the game is both started
      and prepared, the first frame has run. */
  predicate Honoured(g: Gates) {
    g.started && g.prepared ==> g.launched
  }

  /** `handleStart`: refused once started; otherwise marks the game started
      and, if the animation is already prepared, runs its first frame. */
  function PressStart(g: Gates): (r: Gates)
    ensures r.started && r.loaded == g.loaded && r.prepared == g.prepared
    ensures g.started ==> r == g
    ensures Consistent(g) ==> Consistent(r)
    ensures Honoured(g) ==> Honoured(r)
  {
    if g.started then g
    else g.(started := true, launched := g.launched || g.prepared)
  }

  /** One image's `onload` followed by `tryStartAnimation`, AS WRITTEN: it
      counts the image and, once all are in, prepares the animation, but it
      never runs the first frame, even when Start was already pressed. */
  function ImageLoadedAsWritten(g: Gates): (r: Gates)
    requires g.loaded < StoreSize
    ensures r.loaded == g.loaded + 1 && r.started == g.started && r.launched == g.launched
    ensures Consistent(g) ==> Consistent(r)
  {
    var n := g.loaded + 1;
    if n < StoreSize then g.(loaded := n)
    else g.(loaded := n, prepared := true)
  }

  /** One image's `onload`, corrected: when the last image arrives after
      Start was pressed, the prepared animation is run at once. */
  function ImageLoaded(g: Gates): (r: Gates)
    requires g.loaded < StoreSize
    ensures r.loaded == g.loaded + 1 && r.started == g.started
    ensures Consistent(g) ==> Consistent(r) && Honoured(r)
  {
    var n := g.loaded + 1;
    if n < StoreSize then g.(loaded := n)
    else g.(loaded := n, prepared := true, launched := g.launched || g.started)
  }

  /** k further images load, as written. */
  function LoadsAsWritten(g: Gates, k: nat): (r: Gates)
    requires g.loaded + k <= StoreSize
    ensures r.loaded == g.loaded + k && r.started == g.started
    decreases k
  {
    if k == 0 then g else LoadsAsWritten(ImageLoadedAsWritten(g), k - 1)
  }

  /** k further images load, corrected. */
  function Loads(g: Gates, k: nat): (r: Gates)
    requires g.loaded + k <= StoreSize
    ensures r.loaded == g.loaded + k && r.started == g.started
    decreases k
  {
    if k == 0 then g else Loads(ImageLoaded(g), k - 1)
  }

  lemma {:induction false} LoadsAsWrittenKeepLaunch(g: Gates, k: nat)
    requires Consistent(g) && g.loaded + k <= StoreSize
    ensures var r := LoadsAsWritten(g, k);
            Consistent(r) && r.launched == g.launched
    decreases k
  {
    if k > 0 {
      LoadsAsWrittenKeepLaunch(ImageLoadedAsWritten(g), k - 1);
    }
  }

  lemma {:induction false} LoadsHonour(g: Gates, k: nat)
    requires Consistent(g) && Honoured(g) && g.loaded + k <= StoreSize
    ensures var r := Loads(g, k);
            Consistent(r) && Honoured(r)
    decreases k
  {
    if k > 0 {
      LoadsHonour(ImageLoaded(g), k - 1);
    }
  }

  /** AS WRITTEN, Start pressed after only k < 50 images have loaded is lost:
      once the rest have loaded the game is started and prepared but its
      first frame never ran, and every further Start is refused. */
  lemma StartBeforeLastImageIsLost(k: nat)
    requires k < StoreSize
    ensures var g := LoadsAsWritten(PressStart(LoadsAsWritten(Mounted, k)), StoreSize - k);
            g.started && g.prepared && !g.launched && PressStart(g) == g && !Honoured(g)
  {
    LoadsAsWrittenKeepLaunch(Mounted, k);
    var g0 := LoadsAsWritten(Mounted, k);
    LoadsAsWrittenKeepLaunch(PressStart(g0), StoreSize - k);
  }

  /** Corrected, Start is honoured whenever it is pressed: after k images,
      for any k up to 50, and the rest of the images, the first frame ran. */
  lemma StartAlwaysHonoured(k: nat)
    requires k <= StoreSize
    ensures Loads(PressStart(Loads(Mounted, k)), StoreSize - k).launched
  {
    LoadsHonour(Mounted, k);
    var g0 := Loads(Mounted, k);
    LoadsHonour(PressStart(g0), StoreSize - k);
  }

  /** Start runs the animation at most once: a second press changes nothing. */
  lemma StartOnce(g: Gates)
    ensures PressStart(PressStart(g)) == PressStart(g)
  {
  }
}
