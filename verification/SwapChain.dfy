/** A window surface with its swapchain, images and synchronisation semaphores. Whatever the driver
    answers, surface, swapchain and semaphores exist together or not at all, everything destroyed
    was live, and nothing is lost but what `leaked` names. */
module SwapChain {
  import opened Wrappers
  import opened VulkanDevice

  const MAX_FRAMES_IN_FLIGHT := 3
  const FORMAT_UNDEFINED := 0
  const FORMAT_B8G8R8A8_SRGB := 50
  const COLOR_SPACE_SRGB_NONLINEAR := 0

  function Min(a: nat, b: nat): nat { if a <= b then a else b }

  function Max(a: nat, b: nat): nat { if a >= b then a else b }

  /** The requested size within the limits of the surface; the minimum wins over the maximum. */
  function ChooseSwapExtent(caps: Capabilities, width: nat, height: nat): Extent {
    Extent(ChooseSide(caps.minExtent.width, caps.maxExtent.width, width),
           ChooseSide(caps.minExtent.height, caps.maxExtent.height, height))
  }

  function ChooseSide(least: nat, most: nat, requested: nat): nat {
    Max(least, Min(most, requested))
  }

  /** One side of the chosen extent: the requested one where the limits admit it, and otherwise the limit
      that was missed; where the limits contradict each other, the minimum. */
  lemma ClampedSide(least: nat, most: nat, requested: nat)
    ensures var side := ChooseSide(least, most, requested);
            && (least <= requested <= most ==> side == requested)
            && (least <= most < requested ==> side == most)
            && (requested < least || most < least ==> side == least)
  {
  }

  /** The chosen extent, side by side: within the limits, no admissible size is nearer to the request,
      and it is the requested size exactly where the limits admit that. */
  lemma ClampedExtent(caps: Capabilities, width: nat, height: nat)
    requires caps.minExtent.width <= caps.maxExtent.width && caps.minExtent.height <= caps.maxExtent.height
    ensures var e := ChooseSwapExtent(caps, width, height);
            && caps.minExtent.width <= e.width <= caps.maxExtent.width
            && caps.minExtent.height <= e.height <= caps.maxExtent.height
            && (width < caps.minExtent.width ==> e.width == caps.minExtent.width)
            && (width > caps.maxExtent.width ==> e.width == caps.maxExtent.width)
            && (height < caps.minExtent.height ==> e.height == caps.minExtent.height)
            && (height > caps.maxExtent.height ==> e.height == caps.maxExtent.height)
            && (e == Extent(width, height) <==>
                  caps.minExtent.width <= width <= caps.maxExtent.width &&
                  caps.minExtent.height <= height <= caps.maxExtent.height)
    ensures forall w :: caps.minExtent.width <= w <= caps.maxExtent.width ==>
              Distance(ChooseSwapExtent(caps, width, height).width, width) <= Distance(w, width)
    ensures forall h :: caps.minExtent.height <= h <= caps.maxExtent.height ==>
              Distance(ChooseSwapExtent(caps, width, height).height, height) <= Distance(h, height)
  {
  }

  function Distance(a: int, b: int): nat {
    if a <= b then b - a else a - b
  }

  /** The preferred format if it is on offer, else the first one. */
  function BestFormat(available: seq<SurfaceFormat>): SurfaceFormat
    requires available != []
  {
    var preferred := SurfaceFormat(FORMAT_B8G8R8A8_SRGB, COLOR_SPACE_SRGB_NONLINEAR);
    if preferred in available then preferred else available[0]
  }

  method ChooseSwapSurfaceFormat(available: seq<SurfaceFormat>) returns (format: SurfaceFormat)
    requires available != []
    ensures format in available && format == BestFormat(available)
    ensures var preferred := SurfaceFormat(FORMAT_B8G8R8A8_SRGB, COLOR_SPACE_SRGB_NONLINEAR);
            format == if preferred in available then preferred else available[0]
  {
    var i := 0;
    while i < |available|
      invariant 0 <= i <= |available|
      invariant SurfaceFormat(FORMAT_B8G8R8A8_SRGB, COLOR_SPACE_SRGB_NONLINEAR) !in available[..i]
    {
      if available[i].format == FORMAT_B8G8R8A8_SRGB && available[i].colorSpace == COLOR_SPACE_SRGB_NONLINEAR {
        return available[i];
      }
      i := i + 1;
    }
    return available[0];
  }

  ghost function Members(hs: seq<Handle>): set<Handle> {
    set h | h in hs
  }

  lemma MembersNext(hs: seq<Handle>, i: nat)
    requires i < |hs|
    ensures Members(hs[..i + 1]) == Members(hs[..i]) + {hs[i]}
  {
    assert hs[..i + 1] == hs[..i] + [hs[i]];
  }

  ghost predicate Distinct(hs: seq<Handle>) {
    forall i, j :: 0 <= i < j < |hs| ==> hs[i] != hs[j]
  }

  ghost predicate Semaphores(hs: set<Handle>) {
    forall h :: h in hs ==> h.Handle? && h.kind.SemaphoreKind?
  }

  /** Two lists of semaphores without a repetition. */
  ghost predicate SemaphoreLists(xs: seq<Handle>, ys: seq<Handle>) {
    && Semaphores(Members(xs)) && Semaphores(Members(ys))
    && Distinct(xs) && Distinct(ys) && Members(xs) !! Members(ys)
  }

  /** Handles that had not been handed out when ids had reached `first`. */
  ghost predicate AllFrom(hs: set<Handle>, first: nat) {
    forall h :: h in hs ==> h.Handle? && h.id >= first
  }

  /** Destroy a list of semaphores. */
  method DestroyAll(device: Device, hs: seq<Handle>)
    requires device.Valid() && Members(hs) <= device.live && Semaphores(Members(hs)) && Distinct(hs)
    modifies device`live
    ensures device.Valid() && device.live == old(device.live) - Members(hs)
  {
    var i := 0;
    while i < |hs|
      invariant 0 <= i <= |hs|
      invariant device.Valid() && device.live == old(device.live) - Members(hs[..i])
    {
      MembersNext(hs, i);
      assert hs[i] in Members(hs) && hs[i] !in Members(hs[..i]);
      device.Destroy(hs[i]);
      i := i + 1;
    }
    assert hs[..i] == hs;
  }

  /** Destroy the first n semaphores of two lists, pair by pair. */
  method DestroyPairs(device: Device, xs: seq<Handle>, ys: seq<Handle>, n: nat)
    requires n <= |xs| && n <= |ys| && device.Valid()
    requires Members(xs[..n]) <= device.live && Semaphores(Members(xs[..n])) && Distinct(xs[..n])
    requires Members(ys[..n]) <= device.live && Semaphores(Members(ys[..n])) && Distinct(ys[..n])
    requires Members(xs[..n]) !! Members(ys[..n])
    modifies device`live
    ensures device.Valid() && device.live == old(device.live) - Members(xs[..n]) - Members(ys[..n])
  {
    var j := 0;
    while j < n
      invariant 0 <= j <= n
      invariant device.Valid()
      invariant device.live == old(device.live) - Members(xs[..j]) - Members(ys[..j])
    {
      MembersNext(xs, j);
      MembersNext(ys, j);
      DistinctPrefix(xs, n, j);
      DistinctPrefix(ys, n, j);
      device.Destroy(xs[j]);
      device.Destroy(ys[j]);
      j := j + 1;
    }
  }

  lemma DistinctPrefix(hs: seq<Handle>, n: nat, j: nat)
    requires j < n <= |hs| && Distinct(hs[..n])
    ensures hs[j] in Members(hs[..n]) && hs[j] !in Members(hs[..j])
  {
    assert hs[..n][j] == hs[j];
    forall k | 0 <= k < j
      ensures hs[..j][k] != hs[j]
    {
      assert hs[..n][k] == hs[k];
    }
  }

  /** Handles of two alternating runs of creations, the first of them numbered `first`. */
  ghost predicate Alternating(xs: seq<Handle>, ys: seq<Handle>, n: nat, first: nat) {
    && n <= |xs| && n <= |ys|
    && (forall k :: 0 <= k < n ==> xs[k] == Handle(SemaphoreKind, first + 2 * k))
    && (forall k :: 0 <= k < n ==> ys[k] == Handle(SemaphoreKind, first + 2 * k + 1))
  }

  lemma AlternatingDistinct(xs: seq<Handle>, ys: seq<Handle>, n: nat, first: nat)
    requires Alternating(xs, ys, n, first)
    ensures Distinct(xs[..n]) && Distinct(ys[..n]) && Members(xs[..n]) !! Members(ys[..n])
    ensures Semaphores(Members(xs[..n])) && Semaphores(Members(ys[..n]))
    ensures SemaphoreLists(xs[..n], ys[..n]) && AllFrom(Members(xs[..n]) + Members(ys[..n]), first)
    ensures forall h :: h in Members(xs[..n]) + Members(ys[..n]) ==> h.id < first + 2 * n
  {
    assert forall k :: 0 <= k < n ==> xs[..n][k] == xs[k] && ys[..n][k] == ys[k];
  }

  /** One pair of semaphores: the second is only asked for once the first is there. */
  method CreatePair(device: Device) returns (a: Handle, b: Handle)
    requires device.Valid()
    modifies device`live, device`next
    ensures device.Valid()
    ensures a == Null ==> b == Null && device.next == old(device.next) && device.live == old(device.live)
    ensures a != Null ==> a == Handle(SemaphoreKind, old(device.next))
    ensures a != Null && b == Null ==>
              device.next == old(device.next) + 1 && device.live == old(device.live) + {a}
    ensures b != Null ==> b == Handle(SemaphoreKind, old(device.next) + 1)
    ensures b != Null ==>
              device.next == old(device.next) + 2 && device.live == old(device.live) + {a} + {b}
  {
    b := Null;
    a := device.Create(SemaphoreKind);
    if a != Null {
      b := device.Create(SemaphoreKind);
    }
  }

  /** Create pairs until there are three of them or a creation fails; `a` is the first half of an
      incomplete pair, if there is one. */
  method CreatePairs(device: Device) returns (n: nat, xs: seq<Handle>, ys: seq<Handle>, a: Handle)
    requires device.Valid()
    modifies device`live, device`next
    ensures device.Valid() && n <= MAX_FRAMES_IN_FLIGHT == |xs| == |ys|
    ensures device.next == old(device.next) + 2 * n + if a == Null then 0 else 1
    ensures (device.next - old(device.next)) % 2 == if a == Null then 0 else 1
    ensures Alternating(xs, ys, n, old(device.next))
    ensures a == Null || a == Handle(SemaphoreKind, old(device.next) + 2 * n)
    ensures n == MAX_FRAMES_IN_FLIGHT ==> a == Null
    ensures device.live == old(device.live) + (Members(xs[..n]) + Members(ys[..n])) + Single(a)
  {
    hide Members, Alternating;
    ghost var first, base := device.next, device.live;
    xs, ys := seq(MAX_FRAMES_IN_FLIGHT, _ => Null), seq(MAX_FRAMES_IN_FLIGHT, _ => Null);
    n, a := 0, Null;
    NothingMade(xs, ys, first);
    while n < MAX_FRAMES_IN_FLIGHT
      invariant 0 <= n <= MAX_FRAMES_IN_FLIGHT == |xs| == |ys|
      invariant device.Valid() && device.next == first + 2 * n && a == Null
      invariant Alternating(xs, ys, n, first)
      invariant device.live == base + (Members(xs[..n]) + Members(ys[..n]))
    {
      var b;
      a, b := CreatePair(device);
      if b == Null {
        return;
      }
      PairAdded(xs, ys, n, a, b, first);
      xs, ys := xs[n := a], ys[n := b];
      a := Null;
      n := n + 1;
    }
  }

  /** Three pairs, or none. After a failure every complete pair is destroyed again; what is lost is
      the one semaphore of an incomplete pair, that is, when an odd number of creations succeeded. */
  method CreateSemaphores(device: Device)
    returns (ok: bool, xs: seq<Handle>, ys: seq<Handle>, ghost lost: Handle)
    requires device.Valid()
    modifies device`live, device`next
    ensures device.Valid() && device.next >= old(device.next)
    ensures |xs| == |ys| == (if ok then MAX_FRAMES_IN_FLIGHT else 0)
    ensures SemaphoreLists(xs, ys) && AllFrom(Members(xs) + Members(ys), old(device.next))
    ensures device.live == old(device.live) + (Members(xs) + Members(ys)) + Single(lost)
    ensures ok ==> lost == Null
    ensures !ok ==> Members(xs) + Members(ys) == {}
    ensures IsLost(lost, device.next - old(device.next), ok, old(device.next))
  {
    hide Alternating, Members, Distinct, Semaphores, SemaphoreLists, AllFrom;
    ghost var first := device.next;
    var n, a;
    n, xs, ys, a := CreatePairs(device);
    ok, lost := n == MAX_FRAMES_IN_FLIGHT, a;
    AlternatingDistinct(xs, ys, n, first);
    if ok {
      assert xs[..n] == xs && ys[..n] == ys;
    } else {
      UndoPairs(device, xs, ys, n, old(device.live), a, first);
      xs, ys := [], [];
      NothingMade(xs, ys, first);
    }
  }

  lemma AllFromLater(hs: set<Handle>, early: nat, late: nat)
    requires AllFrom(hs, late) && early <= late
    ensures AllFrom(hs, early)
  {
  }

  /** No handle, or one. */
  ghost function Single(h: Handle): set<Handle> {
    if h == Null then {} else {h}
  }

  /** A semaphore is lost when a creation fails after an odd number of successful ones. */
  ghost predicate IsLost(lost: Handle, created: int, ok: bool, first: nat) {
    && (lost != Null <==> !ok && created % 2 == 1)
    && (lost != Null ==> lost.kind.SemaphoreKind? && lost.id >= first)
  }

  /** Destroy the complete pairs; the odd semaphore stays behind. */
  method UndoPairs(device: Device, xs: seq<Handle>, ys: seq<Handle>, n: nat,
                   ghost base: set<Handle>, ghost lost: Handle, ghost first: nat)
    requires device.Valid() && n <= |xs| && n <= |ys| && Alternating(xs, ys, n, first)
    requires device.live == base + (Members(xs[..n]) + Members(ys[..n])) + Single(lost)
    requires forall h :: h in base ==> h.Handle? && h.id < first
    requires lost != Null ==> lost.id >= first + 2 * n
    modifies device`live
    ensures device.Valid() && device.live == base + Single(lost)
  {
    hide Alternating, Members, Distinct, Semaphores, SemaphoreLists, AllFrom;
    AlternatingDistinct(xs, ys, n, first);
    OnlyLostLeft(base, Members(xs[..n]), Members(ys[..n]), lost, first, 2 * n, device.live);
    DestroyPairs(device, xs, ys, n);
  }

  lemma PairAdded(xs: seq<Handle>, ys: seq<Handle>, i: nat, a: Handle, b: Handle, first: nat)
    requires i < |xs| && i < |ys| && Alternating(xs, ys, i, first)
    requires a == Handle(SemaphoreKind, first + 2 * i) && b == Handle(SemaphoreKind, first + 2 * i + 1)
    ensures Alternating(xs[i := a], ys[i := b], i + 1, first)
    ensures Members(xs[i := a][..i + 1]) + Members(ys[i := b][..i + 1])
         == Members(xs[..i]) + Members(ys[..i]) + {a} + {b}
  {
    MembersNext(xs[i := a], i);
    MembersNext(ys[i := b], i);
    assert xs[i := a][..i] == xs[..i] && ys[i := b][..i] == ys[..i];
  }

  lemma NothingMade(xs: seq<Handle>, ys: seq<Handle>, first: nat)
    ensures Alternating(xs, ys, 0, first) && SemaphoreLists([], [])
    ensures Members(xs[..0]) == Members(ys[..0]) == Members([]) == {}
    ensures AllFrom(Members([]) + Members([]), first)
  {
  }

  /** Destroying all complete pairs leaves what there was before, and the odd semaphore. */
  lemma OnlyLostLeft(base: set<Handle>, made: set<Handle>, made': set<Handle>, lost: Handle,
                     first: nat, n: nat, live: set<Handle>)
    requires live == base + (made + made') + Single(lost)
    requires forall h :: h in base ==> h.Handle? && h.id < first
    requires AllFrom(made + made', first) && (forall h :: h in made + made' ==> h.id < first + n)
    requires lost != Null ==> lost.id >= first + n
    ensures live - made - made' == base + Single(lost) && made <= live && made' <= live
  {
  }

  // ----- The books ----------------------------------------------------------------------------------

  /** One of a surface, a swapchain and two lists of semaphores. */
  ghost predicate Holds(surface: Handle, swapchain: Handle, xs: seq<Handle>, ys: seq<Handle>, h: Handle) {
    h != Null && (h == surface || h == swapchain || h in xs || h in ys)
  }

  /** The books balance: a live handle is held, lost, or somebody else's - and never two of these. */
  ghost predicate Balanced(live: set<Handle>, surface: Handle, swapchain: Handle, xs: seq<Handle>,
                           ys: seq<Handle>, leaked: set<Handle>, others: set<Handle>)
  {
    && (forall h :: h in live <==> Holds(surface, swapchain, xs, ys, h) || h in leaked || h in others)
    && (forall h :: h in leaked ==> h.Handle? && h.kind.SemaphoreKind? && !Holds(surface, swapchain, xs, ys, h))
    && (forall h :: h in others ==> !Holds(surface, swapchain, xs, ys, h) && h !in leaked)
  }

  /** The semaphores are all there, and distinct, or there are none. */
  ghost predicate SyncValid(xs: seq<Handle>, ys: seq<Handle>, created: bool) {
    |xs| == |ys| == (if created then MAX_FRAMES_IN_FLIGHT else 0) && SemaphoreLists(xs, ys)
  }

  /** No swapchain uses the surface but the present one. */
  ghost predicate SurfaceValid(live: set<Handle>, surfaceOf: map<Handle, Handle>, surface: Handle, swapchain: Handle) {
    surface != Null ==> surface.kind.SurfaceKind? && UsersAmong(live, surfaceOf, surface) <= {swapchain}
  }

  /** Images and extent are those of the present swapchain, which was asked for `size` within `caps`. */
  ghost predicate SwapchainValid(surfaceOf: map<Handle, Handle>, imageCountOf: map<Handle, nat>,
                                 builtWith: map<Handle, SwapchainInfo>, surface: Handle, swapchain: Handle,
                                 images: seq<Image>, format: int, extent: Extent, size: (int, int),
                                 caps: Capabilities)
  {
    swapchain != Null ==>
      && swapchain.kind.SwapchainKind?
      && swapchain in surfaceOf && surfaceOf[swapchain] == surface
      && swapchain in builtWith && builtWith[swapchain].extent == extent && builtWith[swapchain].format.format == format
      && swapchain in imageCountOf && images == ImagesOf(swapchain, imageCountOf[swapchain])
      && |images| >= MAX_FRAMES_IN_FLIGHT && |images| >= caps.minImageCount
      && size.0 > 0 && size.1 > 0 && extent == ChooseSwapExtent(caps, size.0, size.1)
  }

  /** Entering new semaphores, and a lost one, into the books. */
  lemma EnterSemaphores(before: set<Handle>, after: set<Handle>, surface: Handle, swapchain: Handle,
                        xs: seq<Handle>, ys: seq<Handle>, leaked: set<Handle>, lost: Handle,
                        others: set<Handle>, first: nat)
    requires Balanced(before, surface, swapchain, [], [], leaked, others)
    requires forall h :: h in before ==> h.Handle? && h.id < first
    requires after == before + (Members(xs) + Members(ys)) + Single(lost)
    requires AllFrom(Members(xs) + Members(ys), first)
    requires lost != Null ==> lost.kind.SemaphoreKind? && lost.id >= first && xs == ys == []
    ensures Balanced(after, surface, swapchain, xs, ys, leaked + Single(lost), others)
  {
    assert forall h :: h in xs ==> h in Members(xs) && h.id >= first;
    assert forall h :: h in ys ==> h in Members(ys) && h.id >= first;
  }

  /** Striking destroyed semaphores from the books. */
  lemma StrikeSemaphores(before: set<Handle>, surface: Handle, swapchain: Handle, xs: seq<Handle>,
                         ys: seq<Handle>, leaked: set<Handle>, others: set<Handle>)
    requires Balanced(before, surface, swapchain, xs, ys, leaked, others) && SemaphoreLists(xs, ys)
    requires surface != Null ==> surface.kind.SurfaceKind?
    requires swapchain != Null ==> swapchain.kind.SwapchainKind?
    ensures Members(xs) <= before && Members(ys) <= before
    ensures Balanced(before - Members(xs) - Members(ys), surface, swapchain, [], [], leaked, others)
  {
    assert forall h :: h in Members(xs) + Members(ys) ==> Holds(surface, swapchain, xs, ys, h);
  }

  lemma StrikeSwapchain(before: set<Handle>, surface: Handle, swapchain: Handle, xs: seq<Handle>,
                        ys: seq<Handle>, leaked: set<Handle>, others: set<Handle>)
    requires Balanced(before, surface, swapchain, xs, ys, leaked, others) && SemaphoreLists(xs, ys)
    requires surface != Null ==> surface.kind.SurfaceKind?
    requires swapchain != Null && swapchain.kind.SwapchainKind?
    ensures swapchain in before && Balanced(before - {swapchain}, surface, Null, xs, ys, leaked, others)
  {
    assert forall h :: h in xs ==> h in Members(xs);
    assert forall h :: h in ys ==> h in Members(ys);
    assert Holds(surface, swapchain, xs, ys, swapchain);
  }

  lemma EnterSwapchain(before: set<Handle>, surface: Handle, xs: seq<Handle>, ys: seq<Handle>,
                       leaked: set<Handle>, others: set<Handle>, first: nat)
    requires Balanced(before, surface, Null, xs, ys, leaked, others) && surface != Null
    requires forall h :: h in before ==> h.Handle? && h.id < first
    ensures surface in before
    ensures var h := Handle(SwapchainKind, first);
            h !in before && before + {h} - {h} == before &&
            Balanced(before + {h}, surface, h, xs, ys, leaked, others)
  {
    assert Holds(surface, Null, xs, ys, surface);
    assert forall h :: h in xs && h != Null ==> Holds(surface, Null, xs, ys, h);
    assert forall h :: h in ys && h != Null ==> Holds(surface, Null, xs, ys, h);
  }

  /** The new swapchain is the one user of its surface; without it there is none. */
  lemma NewUser(before: set<Handle>, surfaceOf: map<Handle, Handle>, surface: Handle, h: Handle)
    requires SurfaceValid(before, surfaceOf, surface, Null) && surface != Null && h !in before
    ensures UsersAmong(before, surfaceOf, surface) == {}
    ensures SurfaceValid(before + {h}, surfaceOf[h := surface], surface, h)
    ensures SurfaceValid(before, surfaceOf[h := surface], surface, Null)
  {
    assert Null !in UsersAmong(before, surfaceOf, surface);
    assert Null !in UsersAmong(before, surfaceOf[h := surface], surface);
    assert UsersAmong(before, surfaceOf[h := surface], surface) == UsersAmong(before, surfaceOf, surface);
  }

  lemma NewSwapchainValid(surfaceOf: map<Handle, Handle>, imageCountOf: map<Handle, nat>,
                          builtWith: map<Handle, SwapchainInfo>, surface: Handle, h: Handle, images: seq<Image>,
                          info: SwapchainInfo, size: (int, int), caps: Capabilities)
    requires h.Handle? && h.kind.SwapchainKind? && h in surfaceOf && surfaceOf[h] == surface
    requires h in builtWith && builtWith[h] == info
    requires h in imageCountOf && images == ImagesOf(h, imageCountOf[h]) && imageCountOf[h] >= info.minImageCount
    requires info.minImageCount == Max(caps.minImageCount, MAX_FRAMES_IN_FLIGHT)
    requires size.0 > 0 && size.1 > 0 && info.extent == ChooseSwapExtent(caps, size.0, size.1)
    ensures SwapchainValid(surfaceOf, imageCountOf, builtWith, surface, h, images, info.format.format, info.extent,
                           size, caps)
  {
    hide ChooseSwapExtent;
  }

  lemma NoSwapchainValid(surfaceOf: map<Handle, Handle>, imageCountOf: map<Handle, nat>,
                         builtWith: map<Handle, SwapchainInfo>, surface: Handle, images: seq<Image>, format: int,
                         extent: Extent, size: (int, int), caps: Capabilities)
    ensures SwapchainValid(surfaceOf, imageCountOf, builtWith, surface, Null, images, format, extent, size, caps)
  {
  }

  lemma SurfaceLives(live: set<Handle>, surface: Handle, swapchain: Handle, xs: seq<Handle>,
                     ys: seq<Handle>, leaked: set<Handle>, others: set<Handle>)
    requires Balanced(live, surface, swapchain, xs, ys, leaked, others)
    ensures surface != Null ==> surface in live
    ensures swapchain != Null ==> swapchain in live
    ensures forall h :: h != Null && (h in xs || h in ys) ==> h in live
  {
    assert forall h :: Holds(surface, swapchain, xs, ys, h) ==> h in live;
    assert surface != Null ==> Holds(surface, swapchain, xs, ys, surface);
    assert swapchain != Null ==> Holds(surface, swapchain, xs, ys, swapchain);
    assert forall h :: h != Null && (h in xs || h in ys) ==> Holds(surface, swapchain, xs, ys, h);
  }

  lemma StrikeSurface(before: set<Handle>, surface: Handle, xs: seq<Handle>, ys: seq<Handle>,
                      leaked: set<Handle>, others: set<Handle>)
    requires Balanced(before, surface, Null, xs, ys, leaked, others) && SemaphoreLists(xs, ys)
    requires surface != Null && surface.kind.SurfaceKind?
    ensures surface in before && Balanced(before - {surface}, Null, Null, xs, ys, leaked, others)
  {
    assert forall h :: h in xs ==> h in Members(xs);
    assert forall h :: h in ys ==> h in Members(ys);
    assert Holds(surface, Null, xs, ys, surface);
  }

  /** Semaphores use no surface. */
  lemma SemaphoresUseNothing(before: set<Handle>, xs: seq<Handle>, ys: seq<Handle>, lost: Handle,
                             surfaceOf: map<Handle, Handle>, surface: Handle)
    requires SemaphoreLists(xs, ys) && (lost != Null ==> lost.kind.SemaphoreKind?)
    ensures UsersAmong(before + (Members(xs) + Members(ys)) + Single(lost), surfaceOf, surface)
         == UsersAmong(before, surfaceOf, surface)
    ensures UsersAmong(before - Members(xs) - Members(ys), surfaceOf, surface)
         == UsersAmong(before, surfaceOf, surface)
  {
    hide Members;
  }

  /** With nothing held, what is live is lost or somebody else's. */
  lemma EmptyBooks(live: set<Handle>, leaked: set<Handle>, others: set<Handle>)
    requires Balanced(live, Null, Null, [], [], leaked, others)
    ensures live == leaked + others
  {
    assert forall h :: !Holds(Null, Null, [], [], h);
  }

  lemma OneMoreAtMost(hs: set<Handle>, h: Handle)
    ensures |hs + Single(h)| <= |hs| + if h == Null then 0 else 1
  {
    if h == Null {
      assert hs + {} == hs;
    }
  }

  class RSSurfaceSwapChain {
    const device: Device
    const nativeWindow: bool        // a native window was given
    var surface: Handle
    var swapchain: Handle
    var format: int
    var extent: Extent
    var images: seq<Image>
    var imageAvailable: seq<Handle>
    var renderFinished: seq<Handle>
    var syncObjectsCreated: bool
    var needRecreate: bool
    var isRecreating: bool
    var pendingWidth: int
    var pendingHeight: int
    /** Live handles that are no business of this object. */
    ghost var others: set<Handle>
    /** Semaphores lost by `CreateSyncObjects`, and how often that method failed. */
    ghost var leaked: set<Handle>
    ghost var failedSyncs: nat
    /** The size the present swapchain was asked for, and the limits of the surface at that time. */
    ghost var createdFor: (int, int)
    ghost var createdCaps: Capabilities

    /** What holds throughout, in the middle of a call as well. */
    ghost predicate Sound()
      reads this`surface, this`swapchain, this`format, this`extent, this`images, this`imageAvailable,
            this`renderFinished, this`syncObjectsCreated, this`others, this`leaked, this`failedSyncs, this`createdFor,
            this`createdCaps,
            device`live, device`next, device`surfaceOf, device`imageCountOf, device`builtWith
    {
      && device.Valid()
      && Balanced(device.live, surface, swapchain, imageAvailable, renderFinished, leaked, others)
      && |leaked| <= failedSyncs
      && SyncValid(imageAvailable, renderFinished, syncObjectsCreated)
      && SurfaceValid(device.live, device.surfaceOf, surface, swapchain)
      && SwapchainValid(device.surfaceOf, device.imageCountOf, device.builtWith, surface, swapchain, images, format,
                        extent, createdFor, createdCaps)
    }

    /** What holds between calls: surface, swapchain and semaphores exist together or not at all. */
    ghost predicate Valid()
      reads this`surface, this`swapchain, this`format, this`extent, this`images, this`imageAvailable,
            this`renderFinished, this`syncObjectsCreated, this`isRecreating, this`others, this`leaked, this`failedSyncs,
            this`createdFor, this`createdCaps,
            device`live, device`next, device`surfaceOf, device`imageCountOf, device`builtWith
    {
      && Sound() && !isRecreating
      && (surface != Null <==> swapchain != Null) && (swapchain != Null <==> syncObjectsCreated)
    }

    constructor (device: Device, nativeWindow: bool)
      requires device.Valid()
      ensures Valid() && fresh(this) && this.device == device && this.nativeWindow == nativeWindow
      ensures swapchain == Null && !needRecreate && pendingWidth == pendingHeight == 0
      ensures leaked == {} && others == device.live
    {
      this.device, this.nativeWindow := device, nativeWindow;
      surface, swapchain, format, extent := Null, Null, FORMAT_UNDEFINED, Extent(0, 0);
      images, imageAvailable, renderFinished := [], [], [];
      syncObjectsCreated, needRecreate, isRecreating := false, false, false;
      pendingWidth, pendingHeight := 0, 0;
      others, leaked, failedSyncs := device.live, {}, 0;
    }

    method CleanupSyncObjects()
      requires Sound()
      modifies this`imageAvailable, this`renderFinished, this`syncObjectsCreated, device`live
      ensures Sound() && !syncObjectsCreated
    {
      hide Members, Balanced, UsersAmong;
      if !syncObjectsCreated {
        return;
      }
      StrikeSemaphores(device.live, surface, swapchain, imageAvailable, renderFinished, leaked, others);
      SemaphoresUseNothing(device.live, imageAvailable, renderFinished, Null, device.surfaceOf, surface);
      DestroyAll(device, imageAvailable);
      DestroyAll(device, renderFinished);
      imageAvailable, renderFinished := [], [];
      syncObjectsCreated := false;
      NothingMade([], [], 0);
    }

    /** `lost` is the semaphore that the method leaks, if it leaks one. */
    method CreateSyncObjects() returns (ok: bool, ghost lost: Handle)
      requires Sound()
      modifies this`imageAvailable, this`renderFinished, this`syncObjectsCreated,
               this`leaked, this`failedSyncs, device`live, device`next
      ensures Sound() && ok == syncObjectsCreated
      ensures leaked == old(leaked) + Single(lost) && failedSyncs == old(failedSyncs) + if ok then 0 else 1
      ensures IsLost(lost, device.next - old(device.next), ok, old(device.next))
      ensures device.next >= old(device.next)
      ensures AllFrom(Members(imageAvailable) + Members(renderFinished), old(device.next))
    {
      hide RSSurfaceSwapChain.Sound, AllFrom, Members;
      if syncObjectsCreated {
        CleanupSyncObjects();
      }
      ok, lost := FillSyncObjects();
    }

    method FillSyncObjects() returns (ok: bool, ghost lost: Handle)
      requires Sound() && !syncObjectsCreated
      modifies this`imageAvailable, this`renderFinished, this`syncObjectsCreated,
               this`leaked, this`failedSyncs, device`live, device`next
      ensures Sound() && ok == syncObjectsCreated
      ensures leaked == old(leaked) + Single(lost) && failedSyncs == old(failedSyncs) + if ok then 0 else 1
      ensures IsLost(lost, device.next - old(device.next), ok, old(device.next))
      ensures device.next >= old(device.next)
      ensures AllFrom(Members(imageAvailable) + Members(renderFinished), old(device.next))
    {
      hide Members, SemaphoreLists, AllFrom, UsersAmong, Balanced, Single, SwapchainValid, DeviceValid;
      ghost var before, first := device.live, device.next;
      LiveIsNumbered(before, first, device.surfaceOf, device.imageCountOf);
      ok, imageAvailable, renderFinished, lost := CreateSemaphores(device);
      EnterSemaphores(before, device.live, surface, swapchain, imageAvailable, renderFinished, leaked,
        lost, others, first);
      SemaphoresUseNothing(before, imageAvailable, renderFinished, lost, device.surfaceOf, surface);
      OneMoreAtMost(leaked, lost);
      leaked, failedSyncs := leaked + Single(lost), failedSyncs + if ok then 0 else 1;
      syncObjectsCreated := ok;
    }

    /** Fetch the images of the new swapchain; without them it is destroyed again. */
    method RetrieveSwapchainImages() returns (ok: bool)
      requires device.Valid() && swapchain in device.live && swapchain.kind.SwapchainKind?
      modifies this`images, this`swapchain, device`live
      ensures device.Valid()
      ensures ok ==> swapchain == old(swapchain) && device.live == old(device.live)
      ensures ok ==> images == ImagesOf(swapchain, device.imageCountOf[swapchain])
      ensures !ok ==> swapchain == Null && device.live == old(device.live) - {old(swapchain)}
    {
      var count := device.GetSwapchainImageCount(swapchain);
      if count.None? {
        device.Destroy(swapchain);
        swapchain := Null;
        return false;
      }
      images := seq(count.value, _ => Image(Null, 0));
      var got := device.GetSwapchainImages(swapchain, count.value);
      if got.None? {
        device.Destroy(swapchain);
        swapchain := Null;
        return false;
      }
      images := got.value;
      return true;
    }

    /** The swapchain object, with its format, extent and images. */
    method CreateSwapchain(width: nat, height: nat, support: SwapChainSupport) returns (ok: bool)
      requires Sound() && surface != Null && swapchain == Null
      requires width > 0 && height > 0 && support.formats != []
      modifies this`swapchain, this`format, this`extent, this`images, this`createdFor, this`createdCaps,
               device`live, device`next, device`surfaceOf, device`imageCountOf, device`builtWith
      ensures Sound() && ok == (swapchain != Null)
      ensures device.next >= old(device.next) && (ok ==> swapchain.id >= old(device.next))
      ensures ok ==> createdFor == (width, height) && createdCaps == support.capabilities
      ensures ok ==>
                && device.builtWith[swapchain].format == BestFormat(support.formats)
                && device.builtWith[swapchain].minImageCount >= support.capabilities.minImageCount
    {
      hide SemaphoreLists, Members, Balanced, ChooseSwapExtent, BestFormat, SurfaceValid, UsersAmong, SyncValid,
        SwapchainValid, ImagesOf, DeviceValid;
      var surfaceFormat := ChooseSwapSurfaceFormat(support.formats);
      ghost var before, first := device.live, device.next;
      extent, format := ChooseSwapExtent(support.capabilities, width, height), surfaceFormat.format;
      createdFor, createdCaps := (width, height), support.capabilities;
      var minImageCount := Max(support.capabilities.minImageCount, MAX_FRAMES_IN_FLIGHT);
      LiveIsNumbered(before, first, device.surfaceOf, device.imageCountOf);
      EnterSwapchain(before, surface, imageAvailable, renderFinished, leaked, others, first);
      NewUser(before, device.surfaceOf, surface, Handle(SwapchainKind, first));
      var info := SwapchainInfo(extent, surfaceFormat, minImageCount);
      swapchain := device.CreateSwapchain(surface, info);
      if swapchain == Null {
        NoSwapchainValid(device.surfaceOf, device.imageCountOf, device.builtWith, surface, images, format, extent,
          createdFor, createdCaps);
        return false;
      }
      ok := RetrieveSwapchainImages();
      if ok {
        NewSwapchainValid(device.surfaceOf, device.imageCountOf, device.builtWith, surface, swapchain, images, info,
          createdFor, createdCaps);
      } else {
        assert device.live == before;
        NoSwapchainValid(device.surfaceOf, device.imageCountOf, device.builtWith, surface, images, format, extent,
          createdFor, createdCaps);
      }
    }

    method DropSwapchain()
      requires Sound()
      modifies this`swapchain, device`live
      ensures Sound() && swapchain == Null
    {
      hide SemaphoreLists, Members, Balanced;
      if swapchain != Null {
        StrikeSwapchain(device.live, surface, swapchain, imageAvailable, renderFinished, leaked, others);
        device.Destroy(swapchain);
        swapchain := Null;
      }
    }

    method DropSurface()
      requires Sound() && swapchain == Null
      modifies this`surface, device`live
      ensures Sound() && surface == Null
    {
      hide SemaphoreLists, Members, Balanced;
      if surface != Null {
        StrikeSurface(device.live, surface, imageAvailable, renderFinished, leaked, others);
        device.Destroy(surface);
        surface := Null;
      }
    }

    /** Create a surface if there is none yet. */
    method EnsureSurface() returns (ok: bool)
      requires Sound() && swapchain == Null
      modifies this`surface, device`live, device`next
      ensures Sound() && ok == (surface != Null) && device.next >= old(device.next)
      ensures old(surface) != Null ==> surface == old(surface)
      ensures old(surface) == Null && ok ==> surface.id >= old(device.next)
    {
      hide SemaphoreLists, Members;
      if surface == Null {
        surface := device.Create(SurfaceKind);
      }
      ok := surface != Null;
    }

    /** Surface if there is none yet, swapchain, images and semaphores; on failure at most the surface
        is left. */
    method Create(width: int, height: int) returns (ok: bool, ghost lost: Handle)
      requires Sound() && swapchain == Null && !syncObjectsCreated
      modifies this`surface, this`swapchain, this`format, this`extent, this`images, this`createdFor,
               this`createdCaps, this`imageAvailable, this`renderFinished, this`syncObjectsCreated,
               this`leaked, this`failedSyncs,
               device`live, device`next, device`surfaceOf, device`imageCountOf, device`builtWith
      ensures Sound() && ok == (swapchain != Null) == syncObjectsCreated && (ok ==> surface != Null)
      ensures old(surface) != Null ==> surface == old(surface)
      ensures old(surface) == Null && surface != Null ==> surface.id >= old(device.next)
      ensures ok ==> nativeWindow && createdFor == (width, height) && SyncNew(old(device.next))
      ensures device.next >= old(device.next) && leaked == old(leaked) + Single(lost)
      ensures lost != Null ==> !ok && lost.kind.SemaphoreKind? && lost.id >= old(device.next)
    {
      hide Members, AllFrom, RSSurfaceSwapChain.Sound;
      lost := Null;
      assert leaked == leaked + Single(lost);
      if width <= 0 || height <= 0 {
        return false, Null;
      }
      if !nativeWindow {
        return false, Null;
      }
      ok := EnsureSurface();
      if !ok {
        return false, Null;
      }
      var support := QuerySupport();
      if support.formats == [] || support.presentModes == [] {
        return false, Null;
      }
      ok := CreateSwapchain(width, height, support);
      if !ok {
        return false, Null;
      }
      ghost var first := device.next;
      ok, lost := CreateSyncObjects();
      AllFromLater(Members(imageAvailable) + Members(renderFinished), old(device.next), first);
      if !ok {
        DropSwapchain();
      }
    }

    method QuerySupport() returns (support: SwapChainSupport)
      requires Sound() && surface != Null
    {
      SurfaceLives(device.live, surface, swapchain, imageAvailable, renderFinished, leaked, others);
      support := device.QuerySwapChainSupport(surface);
    }

    /** Swapchain and semaphores were created after ids had reached `first`. */
    ghost predicate SyncNew(first: nat)
      reads this
    {
      swapchain != Null && swapchain.id >= first && AllFrom(Members(imageAvailable) + Members(renderFinished), first)
    }

    method Recreate(width: int, height: int) returns (ok: bool, ghost lost: Handle)
      requires Valid()
      modifies this`surface, this`swapchain, this`format, this`extent, this`images, this`createdFor,
               this`createdCaps, this`imageAvailable, this`renderFinished, this`syncObjectsCreated,
               this`leaked, this`failedSyncs, this`needRecreate, this`isRecreating,
               device`live, device`next, device`surfaceOf, device`imageCountOf, device`builtWith
      ensures Valid() && !needRecreate
      ensures nativeWindow ==> ok == (swapchain != Null)
      ensures ok ==> createdFor == (width, height) && SyncNew(old(device.next))
      ensures ok ==> surface != Null && surface.id >= old(device.next)
      ensures !nativeWindow ==> !ok && swapchain == old(swapchain) && createdFor == old(createdFor)
      ensures device.next >= old(device.next) && leaked == old(leaked) + Single(lost)
      ensures lost != Null ==> !ok && lost.kind.SemaphoreKind? && lost.id >= old(device.next)
    {
      lost := Null;
      assert leaked == leaked + Single(lost);
      if isRecreating {
        return false, Null;
      }
      isRecreating := true;
      needRecreate := false;
      if !nativeWindow {
        isRecreating := false;
        return false, Null;
      }
      ok, lost := Rebuild(width, height);
      isRecreating := false;
    }

    /** Give up what is held, then create everything anew, or nothing. */
    method Rebuild(width: int, height: int) returns (ok: bool, ghost lost: Handle)
      requires Sound() && nativeWindow
      modifies this`surface, this`swapchain, this`format, this`extent, this`images, this`createdFor,
               this`createdCaps, this`imageAvailable, this`renderFinished, this`syncObjectsCreated,
               this`leaked, this`failedSyncs,
               device`live, device`next, device`surfaceOf, device`imageCountOf, device`builtWith
      ensures Sound() && ok == (surface != Null) == (swapchain != Null) == syncObjectsCreated
      ensures ok ==> createdFor == (width, height) && SyncNew(old(device.next))
      ensures ok ==> surface.id >= old(device.next)
      ensures device.next >= old(device.next) && leaked == old(leaked) + Single(lost)
      ensures lost != Null ==> !ok && lost.kind.SemaphoreKind? && lost.id >= old(device.next)
    {
      hide Members, AllFrom, RSSurfaceSwapChain.Sound;
      lost := Null;
      assert leaked == leaked + Single(lost);
      DropSwapchain();
      DropSurface();
      CleanupSyncObjects();
      ok := EnsureSurface();
      if !ok {
        return false, Null;
      }
      ghost var first := device.next;
      ok, lost := Create(width, height);
      if ok {
        AllFromLater(Members(imageAvailable) + Members(renderFinished), old(device.next), first);
      } else {
        DropSurface();
      }
    }

    method ReleaseAll()
      requires Sound()
      modifies this`surface, this`swapchain, this`imageAvailable, this`renderFinished,
               this`syncObjectsCreated, device`live
      ensures Sound() && surface == Null && swapchain == Null && !syncObjectsCreated
      ensures device.live == leaked + others
    {
      hide SemaphoreLists, Members, Balanced, SurfaceValid, SwapchainValid;
      CleanupSyncObjects();
      DropSwapchain();
      DropSurface();
      EmptyBooks(device.live, leaked, others);
    }

    /** Destroy everything held; calling it again changes nothing. */
    method Cleanup()
      requires Valid()
      modifies this`surface, this`swapchain, this`imageAvailable, this`renderFinished,
               this`syncObjectsCreated, this`images, this`format, this`extent, device`live
      ensures Valid() && surface == Null && swapchain == Null && images == []
      ensures device.live == leaked + others
      ensures old(swapchain) == Null ==> device.live == old(device.live)
    {
      hide Balanced, SurfaceValid, SwapchainValid, DeviceValid, SemaphoreLists;
      if swapchain == Null {
        EmptyBooks(device.live, leaked, others);
      }
      ReleaseAll();
      images, format, extent := [], FORMAT_UNDEFINED, Extent(0, 0);
      NoSwapchainValid(device.surfaceOf, device.imageCountOf, device.builtWith, surface, images, format, extent,
        createdFor, createdCaps);
    }

    method AcquireNextImage(semaphore: Handle) returns (r: VkResult, index: nat)
      requires Sound() && semaphore in device.live && semaphore.kind.SemaphoreKind?
      modifies device`work
      ensures swapchain == Null ==> r == Failed
      ensures r.Success? ==> index < |images|
      ensures device.work == if r.Success? || r.Suboptimal? then old(device.work) + [Signal(swapchain, semaphore)]
                             else old(device.work)
    {
      index := 0;
      if swapchain == Null {
        return Failed, 0;
      }
      SurfaceLives(device.live, surface, swapchain, imageAvailable, renderFinished, leaked, others);
      r, index := device.AcquireNextImage(swapchain, semaphore);
    }

    method Present(index: nat, wait: Handle) returns (r: VkResult)
      requires Sound() && wait in device.live && wait.kind.SemaphoreKind? && index < |images|
      modifies device`work
      ensures swapchain == Null ==> r == Failed
      ensures device.work == if swapchain == Null then old(device.work)
                             else old(device.work) + [Show(swapchain, index, wait)]
    {
      if swapchain == Null {
        return Failed;
      }
      SurfaceLives(device.live, surface, swapchain, imageAvailable, renderFinished, leaked, others);
      r := device.QueuePresent(swapchain, index, wait);
    }

    method GetImageAvailableSemaphore(frame: nat) returns (h: Handle)
      requires Valid()
      ensures h != Null <==> swapchain != Null && frame < MAX_FRAMES_IN_FLIGHT
      ensures h != Null ==> frame < |imageAvailable| && h == imageAvailable[frame]
      ensures h != Null ==> h in device.live && h.kind.SemaphoreKind?
    {
      if frame >= |imageAvailable| {
        return Null;
      }
      h := imageAvailable[frame];
      assert h in Members(imageAvailable);
      SurfaceLives(device.live, surface, swapchain, imageAvailable, renderFinished, leaked, others);
    }

    method GetRenderFinishedSemaphore(frame: nat) returns (h: Handle)
      requires Valid()
      ensures h != Null <==> swapchain != Null && frame < MAX_FRAMES_IN_FLIGHT
      ensures h != Null ==> frame < |renderFinished| && h == renderFinished[frame]
      ensures h != Null ==> h in device.live && h.kind.SemaphoreKind?
    {
      if frame >= |renderFinished| {
        return Null;
      }
      h := renderFinished[frame];
      assert h in Members(renderFinished);
      SurfaceLives(device.live, surface, swapchain, imageAvailable, renderFinished, leaked, others);
    }

    method SetPendingSize(width: int, height: int)
      modifies this`pendingWidth, this`pendingHeight
      ensures pendingWidth == width && pendingHeight == height
    {
      pendingWidth, pendingHeight := width, height;
    }

    method SetNeedRecreate(need: bool)
      modifies this`needRecreate
      ensures needRecreate == need
    {
      needRecreate := need;
    }
  }
}
