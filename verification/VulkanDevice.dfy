/** The Vulkan device, as far as callers can tell success from failure and one handle from another:
    a successful creation yields a handle never seen before, a failed one changes nothing, and only
    live handles may be destroyed. Every outcome the driver may choose is left open. */
module VulkanDevice {
  import opened Wrappers

  datatype Kind = SurfaceKind | SwapchainKind | SemaphoreKind | ImageKind | MemoryKind

  datatype Handle = Null | Handle(kind: Kind, id: nat)

  datatype VkResult = Success | Suboptimal | OutOfDate | Failed

  datatype Extent = Extent(width: nat, height: nat)

  /** Limits of a surface. */
  datatype Capabilities = Capabilities(minExtent: Extent, maxExtent: Extent, minImageCount: nat)

  datatype SurfaceFormat = SurfaceFormat(format: int, colorSpace: int)

  datatype SwapChainSupport = SwapChainSupport(
    capabilities: Capabilities, formats: seq<SurfaceFormat>, presentModes: seq<int>)

  /** Image `index` of a swapchain; it lives and dies with the swapchain. */
  datatype Image = Image(swapchain: Handle, index: nat)

  /** What a swapchain, an image or a block of memory was created with. */
  datatype SwapchainInfo = SwapchainInfo(extent: Extent, format: SurfaceFormat, minImageCount: nat)

  datatype ImageInfo = ImageInfo(width: int, height: int, depth: int, format: int, usage: bv32)

  datatype MemoryInfo = MemoryInfo(buffer: nat, size: nat, typeIndex: nat, image: Handle)

  /** What the device is asked for, in order: to signal a semaphore once an image is free, to signal one
      when rendering is done, to wait for one, to show an image once one is signalled. */
  datatype Work =
    | Signal(swapchain: Handle, semaphore: Handle)
    | Rendered(image: Image, semaphore: Handle)
    | Wait(semaphore: Handle)
    | Show(swapchain: Handle, index: nat, semaphore: Handle)

  class Device {
    ghost var live: set<Handle>
    /** Ids below this one have been handed out. */
    var next: nat
    /** The surface a swapchain was created for, and how many images it has. */
    ghost var surfaceOf: map<Handle, Handle>
    var imageCountOf: map<Handle, nat>
    ghost var builtWith: map<Handle, SwapchainInfo>
    ghost var imageInfo: map<Handle, ImageInfo>
    ghost var memoryInfo: map<Handle, MemoryInfo>
    /** The memory that an image was bound to. */
    ghost var boundTo: map<Handle, Handle>
    ghost var work: seq<Work>

    ghost predicate Valid()
      reads this`live, this`next, this`surfaceOf, this`imageCountOf
    {
      DeviceValid(live, next, surfaceOf, imageCountOf)
    }

    /** The live swapchains created for `surface`. */
    ghost function UsersOf(surface: Handle): set<Handle>
      reads this`live, this`surfaceOf
    {
      UsersAmong(live, surfaceOf, surface)
    }

    /** `h` is new: its id had not been handed out. */
    twostate predicate Created(h: Handle, kind: Kind)
      reads this`next, this`live
    {
      h.Handle? && h.kind == kind && h.id == old(next) && next == old(next) + 1 && live == old(live) + {h}
    }

    constructor ()
      ensures Valid() && live == {}
    {
      live, next, surfaceOf, imageCountOf, builtWith := {}, 0, map[], map[], map[];
      imageInfo, memoryInfo, boundTo, work := map[], map[], map[], [];
    }

    /** Creation of a semaphore, an image, a memory block or a surface. */
    method Create(kind: Kind) returns (h: Handle)
      requires Valid() && !kind.SwapchainKind?
      modifies this`live, this`next
      ensures Valid()
      ensures h == Null ==> live == old(live) && next == old(next)
      ensures h != Null ==> Created(h, kind)
    {
      h := Null;
      if * {
        h := Handle(kind, next);
        next := next + 1;
        live := live + {h};
      }
    }

    method CreateImage(info: ImageInfo) returns (h: Handle)
      requires Valid()
      modifies this`live, this`next, this`imageInfo
      ensures Valid()
      ensures h == Null ==> live == old(live) && next == old(next) && imageInfo == old(imageInfo)
      ensures h != Null ==> Created(h, ImageKind) && imageInfo == old(imageInfo)[h := info]
    {
      h := Create(ImageKind);
      if h != Null {
        imageInfo := imageInfo[h := info];
      }
    }

    method AllocateMemory(info: MemoryInfo) returns (h: Handle)
      requires Valid() && info.image in live
      modifies this`live, this`next, this`memoryInfo
      ensures Valid()
      ensures h == Null ==> live == old(live) && next == old(next) && memoryInfo == old(memoryInfo)
      ensures h != Null ==> Created(h, MemoryKind) && memoryInfo == old(memoryInfo)[h := info]
    {
      h := Create(MemoryKind);
      if h != Null {
        memoryInfo := memoryInfo[h := info];
      }
    }

    method BindImageMemory(image: Handle, memory: Handle) returns (r: VkResult)
      requires image in live && image.Handle? && image.kind.ImageKind?
      requires memory in live && memory.Handle? && memory.kind.MemoryKind?
      modifies this`boundTo
      ensures boundTo == if r == Success then old(boundTo)[image := memory] else old(boundTo)
    {
      r := *;
      if r == Success {
        boundTo := boundTo[image := memory];
      }
    }

    method CreateSwapchain(surface: Handle, info: SwapchainInfo) returns (h: Handle)
      requires Valid() && surface in live && UsersOf(surface) == {}
      modifies this`live, this`next, this`surfaceOf, this`imageCountOf, this`builtWith
      ensures Valid()
      ensures h == Null ==>
                live == old(live) && next == old(next) && surfaceOf == old(surfaceOf) &&
                imageCountOf == old(imageCountOf) && builtWith == old(builtWith)
      ensures h != Null ==>
                Created(h, SwapchainKind) && surfaceOf == old(surfaceOf)[h := surface] &&
                h in imageCountOf && imageCountOf[h] >= info.minImageCount && builtWith == old(builtWith)[h := info]
    {
      h := Null;
      if * {
        var count: nat := *;
        h := Handle(SwapchainKind, next);
        next := next + 1;
        live := live + {h};
        surfaceOf := surfaceOf[h := surface];
        imageCountOf := imageCountOf[h := if count < info.minImageCount then info.minImageCount else count];
        builtWith := builtWith[h := info];
      }
    }

    /** Destruction: only what is live, and no surface before its swapchain. */
    method Destroy(h: Handle)
      requires Valid() && h in live && (h.kind.SurfaceKind? ==> UsersOf(h) == {})
      modifies this`live
      ensures Valid() && live == old(live) - {h}
    {
      live := live - {h};
    }

    method GetSwapchainImageCount(swapchain: Handle) returns (count: Option<nat>)
      requires Valid() && swapchain in live && swapchain.kind.SwapchainKind?
      ensures count.Some? ==> count.value == imageCountOf[swapchain]
    {
      count := None;
      if * {
        count := Some(imageCountOf[swapchain]);
      }
    }

    method GetSwapchainImages(swapchain: Handle, count: nat) returns (images: Option<seq<Image>>)
      requires Valid() && swapchain in live && swapchain.kind.SwapchainKind?
      requires count == imageCountOf[swapchain]
      ensures images.Some? ==> images.value == ImagesOf(swapchain, count)
    {
      images := None;
      if * {
        images := Some(ImagesOf(swapchain, count));
      }
    }

    method QuerySwapChainSupport(surface: Handle) returns (support: SwapChainSupport)
      requires surface in live
    {
      support := *;
    }

    /** Acquire an image of a live swapchain, signalling a live semaphore where there is one. */
    method AcquireNextImage(swapchain: Handle, semaphore: Handle) returns (r: VkResult, index: nat)
      requires Valid() && swapchain in live && swapchain.kind.SwapchainKind?
      requires semaphore in live && semaphore.kind.SemaphoreKind?
      modifies this`work
      ensures r.Success? ==> index < imageCountOf[swapchain]
      ensures work == if r.Success? || r.Suboptimal? then old(work) + [Signal(swapchain, semaphore)] else old(work)
    {
      r, index := *, *;
      if index >= imageCountOf[swapchain] {
        r := Failed;
      }
      if r.Success? || r.Suboptimal? {
        work := work + [Signal(swapchain, semaphore)];
      }
    }

    /** Hand a drawing over, to be signalled when it is rendered; the drawing library may refuse. */
    method Flush(image: Image, signal: Handle) returns (ok: bool)
      requires signal in live && signal.Handle? && signal.kind.SemaphoreKind?
      modifies this`work
      ensures work == if ok then old(work) + [Rendered(image, signal)] else old(work)
    {
      ok := *;
      if ok {
        work := work + [Rendered(image, signal)];
      }
    }

    /** Submit what was drawn, after waiting for a live semaphore. */
    method Submit(wait: Handle)
      requires wait in live && wait.Handle? && wait.kind.SemaphoreKind?
      modifies this`work
      ensures work == old(work) + [Wait(wait)]
    {
      work := work + [Wait(wait)];
    }

    /** Present an image of a live swapchain, waiting for a live semaphore. */
    method QueuePresent(swapchain: Handle, index: nat, wait: Handle) returns (r: VkResult)
      requires Valid() && swapchain in live && swapchain.kind.SwapchainKind?
      requires index < imageCountOf[swapchain]
      requires wait in live && wait.kind.SemaphoreKind?
      modifies this`work
      ensures work == old(work) + [Show(swapchain, index, wait)]
    {
      r := *;
      work := work + [Show(swapchain, index, wait)];
    }
  }

  /** Live handles have been handed out, and so have the surfaces of live swapchains. */
  ghost predicate DeviceValid(live: set<Handle>, next: nat, surfaceOf: map<Handle, Handle>,
                              imageCountOf: map<Handle, nat>)
  {
    forall h :: h in live ==>
      && h.Handle? && h.id < next
      && (h.kind.SwapchainKind? ==>
            h in imageCountOf && h in surfaceOf && surfaceOf[h].Handle? && surfaceOf[h].id < next)
  }

  lemma LiveIsNumbered(live: set<Handle>, next: nat, surfaceOf: map<Handle, Handle>, imageCountOf: map<Handle, nat>)
    requires DeviceValid(live, next, surfaceOf, imageCountOf)
    ensures forall h :: h in live ==> h.Handle? && h.id < next
  {
  }

  /** The live swapchains created for `surface`. */
  ghost function UsersAmong(live: set<Handle>, surfaceOf: map<Handle, Handle>, surface: Handle): set<Handle> {
    set h | h in live && h.Handle? && h.kind.SwapchainKind? && h in surfaceOf && surfaceOf[h] == surface
  }

  function ImagesOf(swapchain: Handle, count: nat): (images: seq<Image>)
    ensures |images| == count && forall i :: 0 <= i < count ==> images[i] == Image(swapchain, i)
  {
    seq(count, i requires 0 <= i < count => Image(swapchain, i))
  }
}
