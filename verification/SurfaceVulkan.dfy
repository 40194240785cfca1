/** The Android Vulkan surface: frames are requested at a size and flushed, the swapchain below is
    recreated when size or driver ask for it, and wrapped images are cached per swapchain. */
module SurfaceVulkan {
  import opened Wrappers
  import opened VulkanDevice
  import opened SwapChain

  datatype Gamut = Srgb | DisplayP3 | DciP3 | AdobeRgb | Bt2020 | OtherGamut(n: int)

  datatype ColorSpace = SrgbSpace | DciP3Space | AdobeRgbSpace | Rec2020Space

  function ConvertColorGamutToColorSpace(gamut: Gamut): ColorSpace {
    match gamut
    case DisplayP3 => DciP3Space
    case DciP3 => DciP3Space
    case AdobeRgb => AdobeRgbSpace
    case Bt2020 => Rec2020Space
    case _ => SrgbSpace
  }

  /** Both P3 gamuts share a space, Adobe RGB and BT.2020 have one each, and all else is sRGB. */
  lemma ColorSpaces(gamut: Gamut)
    ensures ConvertColorGamutToColorSpace(gamut) == DciP3Space <==> gamut in {DisplayP3, DciP3}
    ensures ConvertColorGamutToColorSpace(gamut) == AdobeRgbSpace <==> gamut == AdobeRgb
    ensures ConvertColorGamutToColorSpace(gamut) == Rec2020Space <==> gamut == Bt2020
  {
  }

  /** A drawing surface around a swapchain image. */
  datatype SkiaSurface = SkiaSurface(
    image: Image, width: int, height: int, format: int, colorSpace: ColorSpace, isProtected: bool)

  datatype Frame = Frame(
    surface: SkiaSurface, width: int, height: int, bufferAge: int, imageIndex: nat,
    physicalWidth: int, physicalHeight: int)

  /** An unsigned 32-bit number read as a signed one. */
  function AsInt32(n: nat): int {
    var m := n % 0x1_0000_0000;
    if m < 0x8000_0000 then m else m - 0x1_0000_0000
  }

  /** The surface one would wrap around image i now. */
  function Wrapped(image: Image, extent: Extent, format: int, gamut: Gamut, isProtected: bool): SkiaSurface {
    SkiaSurface(image, AsInt32(extent.width), AsInt32(extent.height), format,
      ConvertColorGamutToColorSpace(gamut), isProtected)
  }

  /** What a frame reports as its physical size is the requested size exactly where the surface
      admits that size. */
  lemma PhysicalSizeExact(caps: Capabilities, width: nat, height: nat)
    requires width < 0x8000_0000 && height < 0x8000_0000
    requires caps.minExtent.width <= caps.maxExtent.width < 0x1_0000_0000
    requires caps.minExtent.height <= caps.maxExtent.height < 0x1_0000_0000
    ensures var e := ChooseSwapExtent(caps, width, height);
            AsInt32(e.width) == width && AsInt32(e.height) == height <==>
            caps.minExtent.width <= width <= caps.maxExtent.width &&
            caps.minExtent.height <= height <= caps.maxExtent.height
  {
    ClampedExtent(caps, width, height);
  }

  /** Every cached surface is what wrapping its image afresh would give, up to the protected flag. */
  ghost predicate CacheValid(cache: seq<Option<SkiaSurface>>, swapchain: Handle, images: seq<Image>,
                             extent: Extent, format: int, gamut: Gamut)
  {
    && (cache != [] ==> swapchain != Null && |cache| <= |images|)
    && forall i :: 0 <= i < |cache| && cache[i].Some? ==>
         cache[i].value == Wrapped(images[i], extent, format, gamut, cache[i].value.isProtected)
  }

  /** A swapchain that need not be recreated was created for the current size. */
  ghost predicate InStep(swapchain: Handle, needRecreate: bool, createdFor: (int, int), width: int, height: int) {
    swapchain != Null && !needRecreate ==> createdFor == (width, height)
  }

  /** A pending size that is set goes before the current one. */
  function ChosenSize(pending: int, size: int): int {
    if pending == 0 then size else pending
  }

  lemma PendingChosen(pendingWidth: int, pendingHeight: int, width: int, height: int)
    requires Pending(pendingWidth, pendingHeight, width, height)
    ensures ChosenSize(pendingWidth, width) == width && ChosenSize(pendingHeight, height) == height
  {
  }

  /** Recreation, if it comes, is for this size: the pending size is that size, or not set. */
  predicate Pending(pendingWidth: int, pendingHeight: int, width: int, height: int) {
    (pendingWidth == 0 || pendingWidth == width) && (pendingHeight == 0 || pendingHeight == height)
  }

  /** `cache` made long enough for index i. */
  function Resized(cache: seq<Option<SkiaSurface>>, n: nat): seq<Option<SkiaSurface>> {
    if |cache| >= n then cache else cache + seq(n - |cache|, _ => None)
  }

  // ----- Turns --------------------------------------------------------------------------------------

  /** What happens to the semaphores in the course of a run: all are new, the acquire semaphore of the
      slot is signalled, it is waited for and the slot moves on or not. */
  datatype Turn = Renewed | Acquired | Flushed(moved: bool)

  function SlotNext(slot: nat, turn: Turn): nat {
    match turn
    case Renewed => 0
    case Acquired => slot
    case Flushed(moved) => if moved then (slot + 1) % MAX_FRAMES_IN_FLIGHT else slot
  }

  /** The frame slot after a run. */
  function SlotAfter(turns: seq<Turn>): (slot: nat)
    ensures slot < MAX_FRAMES_IN_FLIGHT
  {
    if turns == [] then 0 else SlotNext(SlotAfter(turns[..|turns| - 1]), turns[|turns| - 1])
  }

  lemma OneMoreTurn(turns: seq<Turn>, turn: Turn)
    ensures SlotAfter(turns + [turn]) == SlotNext(SlotAfter(turns), turn)
  {
    assert (turns + [turn])[..|turns|] == turns;
  }

  /** Turn k waits for the acquire semaphore of `slot`, or puts a new one in its place. */
  predicate Settles(turns: seq<Turn>, k: nat, slot: nat)
    requires k < |turns|
  {
    turns[k].Renewed? || (turns[k].Flushed? && SlotAfter(turns[..k]) == slot)
  }

  /** Turn j signals a semaphore that turn i has signalled, with no wait in between. */
  ghost predicate SignalsAgain(turns: seq<Turn>, i: nat, j: nat)
    requires i < j < |turns|
  {
    && turns[i].Acquired? && turns[j].Acquired? && SlotAfter(turns[..i]) == SlotAfter(turns[..j])
    && forall k {:trigger Settles(turns, k, SlotAfter(turns[..j]))} :: i < k < j ==>
         !Settles(turns, k, SlotAfter(turns[..j]))
  }

  ghost predicate SignalledTwice(turns: seq<Turn>, j: nat)
    requires j < |turns|
  {
    exists i: nat :: i < j && SignalsAgain(turns, i, j)
  }

  /** Only a wait moves the slot on, and it is the slot's own semaphore that is waited for: so a
      semaphore is signalled a second time exactly when two acquisitions follow each other with
      neither a frame shown nor a swapchain created in between. */
  lemma SignalledTwiceIff(turns: seq<Turn>, j: nat)
    requires j < |turns|
    ensures SignalledTwice(turns, j) <==> turns[j].Acquired? && j > 0 && turns[j - 1].Acquired?
  {
    if turns[j].Acquired? && j > 0 && turns[j - 1].Acquired? {
      OneMoreTurn(turns[..j - 1], turns[j - 1]);
      assert turns[..j] == turns[..j - 1] + [turns[j - 1]];
      assert SignalsAgain(turns, j - 1, j);
    }
    if i: nat :| i < j && SignalsAgain(turns, i, j) {
      OnlyAcquired(turns, i, j, j);
    }
  }

  /** Up to turn k nothing was settled, so nothing but acquisitions took place. */
  lemma {:induction false} OnlyAcquired(turns: seq<Turn>, i: nat, j: nat, k: nat)
    requires i < k <= j < |turns| && SignalsAgain(turns, i, j)
    ensures turns[k - 1].Acquired? && SlotAfter(turns[..k]) == SlotAfter(turns[..j])
  {
    OneMoreTurn(turns[..k - 1], turns[k - 1]);
    assert turns[..k] == turns[..k - 1] + [turns[k - 1]];
    if i < k - 1 {
      OnlyAcquired(turns, i, j, k - 1);
      assert !Settles(turns, k - 1, SlotAfter(turns[..j]));
    }
  }

  /** The frame draws to an image of the swapchain, at its extent and in the current colours. */
  ghost predicate Shown(frame: Frame, width: int, height: int, images: seq<Image>, extent: Extent, format: int,
                        gamut: Gamut, lastPresented: Option<nat>)
  {
    && frame.width == width && frame.height == height && frame.imageIndex < |images|
    && frame.surface == Wrapped(images[frame.imageIndex], extent, format, gamut, frame.surface.isProtected)
    && frame.physicalWidth == AsInt32(extent.width) && frame.physicalHeight == AsInt32(extent.height)
    && frame.bufferAge == if lastPresented.Some? && lastPresented.value != frame.imageIndex then 1 else 0
  }

  lemma ShownMeans(f: Frame, width: int, height: int, swapchain: Handle, images: seq<Image>, e: Extent, format: int,
                   gamut: Gamut, lastPresented: Option<nat>)
    requires Shown(f, width, height, images, e, format, gamut, lastPresented)
    requires forall i :: 0 <= i < |images| ==> images[i] == Image(swapchain, i)
    ensures f.width == width && f.height == height && f.imageIndex < |images|
    ensures f.surface.image == Image(swapchain, f.imageIndex)
    ensures f.surface.width == f.physicalWidth && f.surface.height == f.physicalHeight
    ensures e.width < 0x8000_0000 ==> f.physicalWidth == e.width
    ensures e.height < 0x8000_0000 ==> f.physicalHeight == e.height
    ensures f.surface.format == format && f.surface.colorSpace == ConvertColorGamutToColorSpace(gamut)
    ensures f.bufferAge == if lastPresented.Some? && lastPresented.value != f.imageIndex then 1 else 0
  {
  }

  class RSSurfaceAndroidVulkan {
    const swapChain: RSSurfaceSwapChain
    const device: Device
    const nativeWindow: bool
    var skContext: bool             // a drawing context was set up
    var renderContext: bool         // a render context was set
    var gamut: Gamut
    var skiaSurfaces: seq<Option<SkiaSurface>>
    var lastPresented: Option<nat>
    var currentFrame: nat
    var currentWidth: int
    var currentHeight: int
    ghost var turns: seq<Turn>

    /** What holds between the steps of a call. */
    ghost predicate Sound()
      reads this`skiaSurfaces, this`gamut, this`currentFrame, this`turns, swapChain,
            device`live, device`next, device`surfaceOf, device`imageCountOf, device`builtWith
    {
      && swapChain.device == device && swapChain.nativeWindow == nativeWindow && swapChain.Valid()
      && currentFrame < MAX_FRAMES_IN_FLIGHT && currentFrame == SlotAfter(turns)
      && CacheValid(skiaSurfaces, swapChain.swapchain, swapChain.images, swapChain.extent, swapChain.format, gamut)
    }

    /** What holds between calls. */
    ghost predicate Valid()
      reads this`skiaSurfaces, this`gamut, this`currentFrame, this`turns, this`currentWidth, this`currentHeight,
            swapChain, device`live, device`next, device`surfaceOf, device`imageCountOf, device`builtWith
    {
      && Sound()
      && swapChain.pendingWidth == 0 && swapChain.pendingHeight == 0
      && InStep(swapChain.swapchain, swapChain.needRecreate, swapChain.createdFor, currentWidth, currentHeight)
    }

    constructor (device: Device, nativeWindow: bool)
      requires device.Valid()
      ensures Valid() && fresh(this) && fresh(swapChain) && this.device == device && this.nativeWindow == nativeWindow
      ensures swapChain.swapchain == Null && swapChain.leaked == {} && swapChain.others == device.live
    {
      this.device, this.nativeWindow := device, nativeWindow;
      swapChain := new RSSurfaceSwapChain(device, nativeWindow);
      skContext, renderContext, gamut := false, false, Srgb;
      skiaSurfaces, lastPresented, currentFrame := [], None, 0;
      currentWidth, currentHeight := -1, 0;
      turns := [];
    }

    /** Record the size; a swapchain for another one is to be recreated, for this size. */
    method SetNativeWindowInfo(width: int, height: int)
      requires Valid()
      modifies this`currentWidth, this`currentHeight
      modifies swapChain`needRecreate, swapChain`pendingWidth, swapChain`pendingHeight
      ensures Sound()
      ensures InStep(swapChain.swapchain, swapChain.needRecreate, swapChain.createdFor, currentWidth, currentHeight)
      ensures nativeWindow ==>
                currentWidth == width && currentHeight == height &&
                Pending(swapChain.pendingWidth, swapChain.pendingHeight, width, height)
      ensures var changed := nativeWindow && (width != old(currentWidth) || height != old(currentHeight));
              && swapChain.needRecreate == (old(swapChain.needRecreate) || changed)
              && (swapChain.pendingWidth, swapChain.pendingHeight) ==
                   if changed && !old(swapChain.needRecreate) then (width, height) else (0, 0)
      ensures !nativeWindow ==> Valid()
    {
      hide RSSurfaceSwapChain.Valid, CacheValid;
      if !nativeWindow {
        return;
      }
      if width != currentWidth || height != currentHeight {
        if !swapChain.needRecreate {
          swapChain.SetNeedRecreate(true);
          swapChain.SetPendingSize(width, height);
        }
        currentWidth, currentHeight := width, height;
      }
    }

    /** Afterwards no size is pending, and a swapchain there is was created for the current size. */
    method RecreateSwapchainIfNeeded(width: int, height: int) returns (ok: bool)
      requires Sound() && nativeWindow && currentWidth == width && currentHeight == height
      requires InStep(swapChain.swapchain, swapChain.needRecreate, swapChain.createdFor, width, height)
      requires Pending(swapChain.pendingWidth, swapChain.pendingHeight, width, height)
      requires swapChain.needRecreate || (swapChain.pendingWidth == 0 && swapChain.pendingHeight == 0)
      modifies this`skiaSurfaces, this`lastPresented, this`currentFrame, this`turns, swapChain,
               device`live, device`next, device`surfaceOf, device`imageCountOf, device`builtWith
      ensures Valid() && !swapChain.needRecreate
      ensures swapChain.swapchain != Null ==> ok
      ensures !old(swapChain.needRecreate) && old(swapChain.swapchain) != Null ==>
                unchanged(this) && unchanged(swapChain) && unchanged(device)
      ensures old(swapChain.needRecreate) || old(swapChain.swapchain) == Null ==>
                skiaSurfaces == [] && lastPresented == None && currentFrame == 0 && turns == old(turns) + [Renewed]
      ensures swapChain.others == old(swapChain.others) && old(swapChain.leaked) <= swapChain.leaked
    {
      if !swapChain.needRecreate && swapChain.swapchain != Null {
        return true;
      }
      if swapChain.isRecreating {
        return false;
      }
      RecreateSwapchain(width, height);
      return true;
    }

    method RecreateSwapchain(width: int, height: int)
      requires Sound() && nativeWindow && currentWidth == width && currentHeight == height
      requires Pending(swapChain.pendingWidth, swapChain.pendingHeight, width, height)
      modifies this`skiaSurfaces, this`lastPresented, this`currentFrame, this`turns, swapChain,
               device`live, device`next, device`surfaceOf, device`imageCountOf, device`builtWith
      ensures Valid() && !swapChain.needRecreate
      ensures skiaSurfaces == [] && lastPresented == None && currentFrame == 0 && turns == old(turns) + [Renewed]
      ensures swapChain.others == old(swapChain.others) && old(swapChain.leaked) <= swapChain.leaked
    {
      hide RSSurfaceSwapChain.Valid, Pending, ChosenSize, SlotAfter;
      PendingChosen(swapChain.pendingWidth, swapChain.pendingHeight, width, height);
      var recreateWidth := ChosenSize(swapChain.pendingWidth, width);
      var recreateHeight := ChosenSize(swapChain.pendingHeight, height);
      skiaSurfaces := [];
      ResizeSwapchain(recreateWidth, recreateHeight);
      lastPresented, currentFrame := None, 0;
      OneMoreTurn(turns, Renewed);
      turns := turns + [Renewed];
    }

    /** The swapchain anew in this size, which is then no longer pending. */
    method ResizeSwapchain(width: int, height: int)
      requires swapChain.device == device && swapChain.nativeWindow == nativeWindow && nativeWindow
      requires swapChain.Valid()
      modifies swapChain, device`live, device`next, device`surfaceOf, device`imageCountOf, device`builtWith
      ensures swapChain.Valid() && !swapChain.needRecreate
      ensures swapChain.pendingWidth == 0 && swapChain.pendingHeight == 0
      ensures swapChain.swapchain != Null ==> swapChain.createdFor == (width, height)
      ensures swapChain.others == old(swapChain.others) && old(swapChain.leaked) <= swapChain.leaked
    {
      hide RSSurfaceSwapChain.SyncNew, RSSurfaceSwapChain.Sound;
      ghost var lost;
      var recreated;
      recreated, lost := swapChain.Recreate(width, height);
      swapChain.SetPendingSize(0, 0);
    }

    /** An image to draw to, signalled by the acquire semaphore of the frame slot; none when the driver
        says no (`result`) or wants the swapchain recreated. */
    method AcquireSwapchainImage() returns (index: Option<nat>, ghost result: VkResult)
      requires Valid() && swapChain.swapchain != Null
      modifies this`turns, swapChain`needRecreate, device`work
      ensures Valid()
      ensures index.Some? <==> result == Success
      ensures index.Some? ==> index.value < |swapChain.images|
      ensures swapChain.needRecreate == (old(swapChain.needRecreate) || result == OutOfDate || result == Suboptimal)
      ensures currentFrame < |swapChain.imageAvailable|
      ensures result == Success || result == Suboptimal ==>
                && device.work == old(device.work) +
                     [Signal(swapChain.swapchain, swapChain.imageAvailable[currentFrame])]
                && turns == old(turns) + [Acquired]
      ensures result == OutOfDate || result == Failed ==> device.work == old(device.work) && turns == old(turns)
    {
      hide Balanced, SyncValid, SurfaceValid, SwapchainValid, CacheValid, DeviceValid, SlotAfter;
      var semaphore := swapChain.GetImageAvailableSemaphore(currentFrame);
      var r, i := swapChain.AcquireNextImage(semaphore);
      result := r;
      if r == Success || r == Suboptimal {
        OneMoreTurn(turns, Acquired);
        turns := turns + [Acquired];
      }
      if r == OutOfDate || r == Suboptimal {
        swapChain.SetNeedRecreate(true);
        return None, result;
      } else if r != Success {
        return None, result;
      }
      return Some(i), result;
    }

    /** Wrap a swapchain image, which the drawing library may refuse. */
    method CreateSkiaSurfaceFromSwapchainImage(index: nat, width: int, height: int, isProtected: bool)
      returns (surface: Option<SkiaSurface>)
      ensures surface.Some? ==>
                index < |swapChain.images| &&
                surface.value == SkiaSurface(swapChain.images[index], width, height, swapChain.format,
                                             ConvertColorGamutToColorSpace(gamut), isProtected)
    {
      if index >= |swapChain.images| {
        return None;
      }
      surface := None;
      if * {
        surface := Some(SkiaSurface(swapChain.images[index], width, height, swapChain.format,
                                    ConvertColorGamutToColorSpace(gamut), isProtected));
      }
    }

    method GetOrCreateSkiaSurface(index: nat, width: int, height: int, isProtected: bool)
      returns (surface: Option<SkiaSurface>)
      requires Valid() && swapChain.swapchain != Null && index < |swapChain.images|
      requires width == AsInt32(swapChain.extent.width) && height == AsInt32(swapChain.extent.height)
      modifies this`skiaSurfaces
      ensures Valid()
      ensures surface.Some? ==>
                surface.value == Wrapped(swapChain.images[index], swapChain.extent, swapChain.format, gamut,
                                         surface.value.isProtected)
      ensures var cached := Resized(old(skiaSurfaces), index + 1);
              skiaSurfaces == cached[index := surface] &&
              if cached[index].Some? then surface == cached[index]
              else surface.Some? ==> surface.value.isProtected == isProtected
    {
      hide RSSurfaceSwapChain.Valid, AsInt32, ConvertColorGamutToColorSpace;
      if index >= |skiaSurfaces| {
        skiaSurfaces := Resized(skiaSurfaces, index + 1);
      }
      var cached := skiaSurfaces[index];
      if cached.None? || cached.value.width != width || cached.value.height != height {
        surface := CreateSkiaSurfaceFromSwapchainImage(index, width, height, isProtected);
        skiaSurfaces := skiaSurfaces[index := surface];
        return;
      }
      return cached;
    }

    /** A frame on a swapchain created for exactly the requested size, each side of it cut to the limits
        the surface had then, around the acquired image of that swapchain - or none. */
    method RequestFrame(width: int, height: int, isProtected: bool) returns (frame: Option<Frame>)
      requires Valid()
      modifies this`currentWidth, this`currentHeight, this`skiaSurfaces, this`lastPresented, this`currentFrame
      modifies this`turns, swapChain, device`work
      modifies device`live, device`next, device`surfaceOf, device`imageCountOf, device`builtWith
      ensures Valid()
      ensures swapChain.others == old(swapChain.others) && old(swapChain.leaked) <= swapChain.leaked
      ensures !nativeWindow || !skContext ==>
                frame.None? && unchanged(this) && unchanged(swapChain) && unchanged(device)
      ensures nativeWindow && skContext ==> currentWidth == width && currentHeight == height
      ensures frame.Some? ==> width > 0 && height > 0 && swapChain.swapchain != Null && !swapChain.needRecreate
      ensures frame.Some? ==>
                var e, least, most :=
                  swapChain.extent, swapChain.createdCaps.minExtent, swapChain.createdCaps.maxExtent;
                && (least.width <= width <= most.width ==> e.width == width)
                && (least.width <= most.width < width ==> e.width == most.width)
                && (width < least.width || most.width < least.width ==> e.width == least.width)
                && (least.height <= height <= most.height ==> e.height == height)
                && (least.height <= most.height < height ==> e.height == most.height)
                && (height < least.height || most.height < least.height ==> e.height == least.height)
                && swapChain.swapchain in device.builtWith && device.builtWith[swapChain.swapchain].extent == e
      ensures frame.Some? ==>
                var f, e := frame.value, swapChain.extent;
                && f.width == width && f.height == height && f.imageIndex < |swapChain.images|
                && f.surface.image == Image(swapChain.swapchain, f.imageIndex)
                && f.surface.width == f.physicalWidth && f.surface.height == f.physicalHeight
                && (e.width < 0x8000_0000 ==> f.physicalWidth == e.width)
                && (e.height < 0x8000_0000 ==> f.physicalHeight == e.height)
                && f.surface.format == swapChain.format
                && f.surface.colorSpace == ConvertColorGamutToColorSpace(gamut)
                && f.bufferAge == if lastPresented.Some? && lastPresented.value != f.imageIndex then 1 else 0
      ensures frame.Some? ==>
                frame.value.surface.isProtected == isProtected || Some(frame.value.surface) in old(skiaSurfaces)
      ensures frame.Some? ==>
                currentFrame < |swapChain.imageAvailable| &&
                device.work == old(device.work) +
                  [Signal(swapChain.swapchain, swapChain.imageAvailable[currentFrame])]
      ensures frame.Some? ==>
                var renewed := old(swapChain.needRecreate) || old(swapChain.swapchain) == Null ||
                               width != old(currentWidth) || height != old(currentHeight);
                turns == (if renewed then old(turns) + [Renewed] else old(turns)) + [Acquired]
    {
      hide RSSurfaceSwapChain.Valid, CacheValid, ChooseSwapExtent, Shown, AsInt32, SlotAfter, InStep;
      if !nativeWindow {
        return None;
      }
      if !skContext {
        return None;
      }
      var ok := MatchSwapchain(width, height);
      if !ok {
        return None;
      }
      if swapChain.swapchain == Null {
        return None;
      }
      SizesChosen();
      StandsOnImages();
      frame := NextFrame(width, height, isProtected);
      if frame.Some? {
        ShownMeans(frame.value, width, height, swapChain.swapchain, swapChain.images, swapChain.extent,
          swapChain.format, gamut, lastPresented);
      }
    }

    /** Record the size, and recreate the swapchain where it does not fit. */
    method MatchSwapchain(width: int, height: int) returns (ok: bool)
      requires Valid() && nativeWindow
      modifies this`currentWidth, this`currentHeight, this`skiaSurfaces, this`lastPresented, this`currentFrame
      modifies this`turns, swapChain
      modifies device`live, device`next, device`surfaceOf, device`imageCountOf, device`builtWith
      ensures Valid() && !swapChain.needRecreate && (swapChain.swapchain != Null ==> ok)
      ensures swapChain.others == old(swapChain.others) && old(swapChain.leaked) <= swapChain.leaked
      ensures currentWidth == width && currentHeight == height
      ensures if old(swapChain.needRecreate) || old(swapChain.swapchain) == Null ||
                 width != old(currentWidth) || height != old(currentHeight)
              then turns == old(turns) + [Renewed] && skiaSurfaces == []
              else turns == old(turns) && skiaSurfaces == old(skiaSurfaces)
    {
      hide RSSurfaceSwapChain.Valid, CacheValid, Pending, SlotAfter;
      SetNativeWindowInfo(width, height);
      ok := RecreateSwapchainIfNeeded(width, height);
    }

    /** A swapchain that stands was created for the current size, within the limits of the surface. */
    lemma SizesChosen()
      requires Valid() && swapChain.swapchain != Null && !swapChain.needRecreate
      ensures currentWidth > 0 && currentHeight > 0
      ensures var e, caps := swapChain.extent, swapChain.createdCaps;
              && e.width == ChooseSide(caps.minExtent.width, caps.maxExtent.width, currentWidth)
              && e.height == ChooseSide(caps.minExtent.height, caps.maxExtent.height, currentHeight)
    {
      ClampedSide(swapChain.createdCaps.minExtent.width, swapChain.createdCaps.maxExtent.width, currentWidth);
      ClampedSide(swapChain.createdCaps.minExtent.height, swapChain.createdCaps.maxExtent.height, currentHeight);
    }

    lemma StandsOnImages()
      requires Valid() && swapChain.swapchain != Null
      ensures swapChain.swapchain in device.builtWith
      ensures device.builtWith[swapChain.swapchain].extent == swapChain.extent
      ensures forall i :: 0 <= i < |swapChain.images| ==> swapChain.images[i] == Image(swapChain.swapchain, i)
    {
    }

    /** A frame around the next image of the swapchain, if there is one to have. */
    method NextFrame(width: int, height: int, isProtected: bool) returns (frame: Option<Frame>)
      requires Valid() && swapChain.swapchain != Null
      modifies this`skiaSurfaces, this`turns, swapChain`needRecreate, device`work
      ensures Valid()
      ensures frame.Some? ==> swapChain.needRecreate == old(swapChain.needRecreate)
      ensures frame.Some? ==>
                Shown(frame.value, width, height, swapChain.images, swapChain.extent, swapChain.format, gamut,
                      lastPresented)
      ensures frame.Some? ==>
                frame.value.surface.isProtected == isProtected || Some(frame.value.surface) in old(skiaSurfaces)
      ensures currentFrame < |swapChain.imageAvailable|
      ensures frame.Some? ==>
                && device.work == old(device.work) +
                     [Signal(swapChain.swapchain, swapChain.imageAvailable[currentFrame])]
                && turns == old(turns) + [Acquired]
    {
      hide RSSurfaceSwapChain.Valid, CacheValid, AsInt32, Wrapped, SlotAfter;
      var index;
      ghost var result;
      index, result := AcquireSwapchainImage();
      if index.None? {
        return None;
      }
      var physicalWidth, physicalHeight := AsInt32(swapChain.extent.width), AsInt32(swapChain.extent.height);
      var surface := GetOrCreateSkiaSurface(index.value, physicalWidth, physicalHeight, isProtected);
      if surface.None? {
        return None;
      }
      var bufferAge := if lastPresented.Some? && index != lastPresented then 1 else 0;
      return Some(Frame(surface.value, width, height, bufferAge, index.value, physicalWidth, physicalHeight));
    }

    /** Show an image once `wait` is signalled. What follows is decided by the answer of the driver. */
    method PresentSwapchainImage(index: nat, wait: Handle) returns (ok: bool, ghost result: VkResult)
      requires Valid() && index < |swapChain.images| && wait in device.live && wait.kind.SemaphoreKind?
      modifies this`lastPresented, this`currentFrame, this`turns, swapChain`needRecreate, device`work
      ensures Valid() && turns == old(turns) + [Flushed(ok)]
      ensures device.work == if swapChain.swapchain == Null then old(device.work)
                             else old(device.work) + [Show(swapChain.swapchain, index, wait)]
      ensures ok <==> result == Success || result == Suboptimal
      ensures currentFrame == if ok then (old(currentFrame) + 1) % MAX_FRAMES_IN_FLIGHT else old(currentFrame)
      ensures lastPresented == if result == Success then Some(index) else old(lastPresented)
      ensures swapChain.needRecreate == (old(swapChain.needRecreate) || result == OutOfDate)
      ensures swapChain.swapchain == Null ==> !ok
    {
      hide Balanced, SyncValid, SurfaceValid, SwapchainValid, CacheValid, DeviceValid, SlotAfter;
      var r := swapChain.Present(index, wait);
      result := r;
      ghost var moved := r == Success || r == Suboptimal;
      OneMoreTurn(turns, Flushed(moved));
      turns := turns + [Flushed(moved)];
      if r == OutOfDate {
        swapChain.SetNeedRecreate(true);
        return false, result;
      } else if r == Suboptimal {
      } else if r != Success {
        return false, result;
      } else {
        lastPresented := Some(index);
      }
      currentFrame := (currentFrame + 1) % MAX_FRAMES_IN_FLIGHT;
      return true, result;
    }

    /** Hand the drawing over; the drawing library may refuse. */
    method FlushSkiaSurface(surface: SkiaSurface, renderFinished: Handle) returns (ok: bool)
      requires renderFinished in device.live && renderFinished.Handle? && renderFinished.kind.SemaphoreKind?
      modifies device`work
      ensures device.work == if ok then old(device.work) + [Rendered(surface.image, renderFinished)]
                             else old(device.work)
    {
      ok := device.Flush(surface.image, renderFinished);
    }

    method WaitAndSubmitSkiaContext(wait: Handle)
      requires wait in device.live && wait.Handle? && wait.kind.SemaphoreKind?
      modifies device`work
      ensures device.work == old(device.work) + [Wait(wait)]
    {
      device.Submit(wait);
    }

    /** A frame may be shown when the swapchain stands and has its image. */
    predicate Ready(frame: Option<Frame>)
      reads swapChain
    {
      && frame.Some? && !swapChain.isRecreating && !swapChain.needRecreate
      && frame.value.imageIndex < |swapChain.images| && swapChain.swapchain != Null
    }

    /** A frame that is not ready is dropped without a trace. Any other has its image shown once, and
        the acquire semaphore of the frame slot is waited for once: by the drawing, after which the image
        is shown as soon as that is rendered, or, when drawing failed, by the showing itself. */
    method FlushFrame(frame: Option<Frame>) returns (ok: bool)
      requires Valid()
      modifies this`lastPresented, this`currentFrame, this`turns, swapChain`needRecreate, device`work
      ensures Valid()
      ensures turns == if old(Ready(frame)) then old(turns) + [Flushed(ok)] else old(turns)
      ensures !old(Ready(frame)) ==>
                !ok && device.work == old(device.work) && currentFrame == old(currentFrame) &&
                lastPresented == old(lastPresented) && swapChain.needRecreate == old(swapChain.needRecreate)
      ensures old(Ready(frame)) ==>
                && old(currentFrame) < |swapChain.imageAvailable| && old(currentFrame) < |swapChain.renderFinished|
                && var acquired, rendered, index :=
                     swapChain.imageAvailable[old(currentFrame)], swapChain.renderFinished[old(currentFrame)],
                     frame.value.imageIndex;
                || device.work == old(device.work) + [Show(swapChain.swapchain, index, acquired)]
                || device.work == old(device.work) + [Rendered(frame.value.surface.image, rendered)] +
                                  [Wait(acquired)] + [Show(swapChain.swapchain, index, rendered)]
      ensures currentFrame == if ok then (old(currentFrame) + 1) % MAX_FRAMES_IN_FLIGHT else old(currentFrame)
      ensures lastPresented == old(lastPresented) || (ok && lastPresented == Some(frame.value.imageIndex))
    {
      hide RSSurfaceSwapChain.Sound, CacheValid, SlotAfter;
      if frame.None? {
        return false;
      }
      if swapChain.isRecreating || swapChain.needRecreate {
        return false;
      }
      var index := frame.value.imageIndex;
      if index >= |swapChain.images| {
        return false;
      }
      if swapChain.swapchain == Null {
        return false;
      }
      ok := ShowFrame(frame.value.surface, index);
    }

    /** Draw and show, or, when drawing fails, show what is there. */
    method ShowFrame(surface: SkiaSurface, index: nat) returns (ok: bool)
      requires Valid() && swapChain.swapchain != Null && index < |swapChain.images|
      modifies this`lastPresented, this`currentFrame, this`turns, swapChain`needRecreate, device`work
      ensures Valid() && turns == old(turns) + [Flushed(ok)]
      ensures old(currentFrame) < |swapChain.imageAvailable| && old(currentFrame) < |swapChain.renderFinished|
      ensures var acquired, rendered :=
                swapChain.imageAvailable[old(currentFrame)], swapChain.renderFinished[old(currentFrame)];
              || device.work == old(device.work) + [Show(swapChain.swapchain, index, acquired)]
              || device.work == old(device.work) + [Rendered(surface.image, rendered)] + [Wait(acquired)] +
                                [Show(swapChain.swapchain, index, rendered)]
      ensures currentFrame == if ok then (old(currentFrame) + 1) % MAX_FRAMES_IN_FLIGHT else old(currentFrame)
      ensures lastPresented == old(lastPresented) || (ok && lastPresented == Some(index))
    {
      hide Balanced, SyncValid, SurfaceValid, SwapchainValid, CacheValid, DeviceValid, SlotAfter;
      var acquired := swapChain.GetImageAvailableSemaphore(currentFrame);
      var rendered := swapChain.GetRenderFinishedSemaphore(currentFrame);
      ghost var result;
      var flushed := FlushSkiaSurface(surface, rendered);
      if !flushed {
        ok, result := PresentSwapchainImage(index, acquired);
        return;
      }
      WaitAndSubmitSkiaContext(acquired);
      ok, result := PresentSwapchainImage(index, rendered);
    }

    /** New colours drop the cache, even where, without a render context, they are not taken over. */
    method SetColorSpace(newGamut: Gamut)
      requires Valid()
      modifies this`gamut, this`skiaSurfaces
      ensures Valid()
      ensures gamut == if renderContext then newGamut else old(gamut)
      ensures skiaSurfaces == if old(gamut) == newGamut then old(skiaSurfaces) else []
    {
      hide RSSurfaceSwapChain.Valid;
      if gamut == newGamut {
        return;
      }
      if renderContext {
        gamut := newGamut;
      }
      skiaSurfaces := [];
    }

    method SetSkContext(present: bool)
      modifies this`skContext
      ensures skContext == present
    {
      skContext := present;
    }

    method SetRenderContext(present: bool)
      modifies this`renderContext
      ensures renderContext == present
    {
      renderContext := present;
    }

    /** The destructor gives everything back but the semaphores lost on the way; that the swapchain
        cleans up a second time when it goes itself does no harm. */
    method Destroy()
      requires Valid()
      modifies this`skiaSurfaces, swapChain, device`live
      ensures swapChain.Valid() && swapChain.surface == Null && swapChain.swapchain == Null && skiaSurfaces == []
      ensures device.live == old(swapChain.leaked) + old(swapChain.others)
    {
      hide RSSurfaceSwapChain.Valid;
      skiaSurfaces := [];
      swapChain.Cleanup();
      swapChain.Cleanup();
    }
  }
}
