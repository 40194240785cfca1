/** Import of a hardware buffer as a texture: an image, memory of a fitting type, and the two bound
    together - all of it or nothing. */
module BufferImport {
  import opened Wrappers
  import opened VulkanDevice

  newtype uint32 = x: int | 0 <= x < 0x1_0000_0000

  const VKIMAGE_LIMIT_SIZE: uint32 := 10000 * 10000
  const MAX_MEMORY_TYPES := 32
  const DEVICE_LOCAL_BIT: bv32 := 1
  const FORMAT_UNDEFINED := 0
  const USAGE_TRANSFER_SRC: bv32 := 1
  const USAGE_TRANSFER_DST: bv32 := 2
  const USAGE_SAMPLED: bv32 := 4

  /** What the driver says about a buffer. */
  datatype BufferProperties = BufferProperties(format: int, allocationSize: nat, memoryTypeBits: bv32)

  datatype Texture = Texture(image: Handle, memory: Handle, size: nat, format: int, usage: bv32)

  /** The size test as it is computed, on 32 bits. */
  predicate SizeRefused(width: uint32, height: uint32, depth: uint32) {
    width == 0 || height == 0 || depth == 0 || depth > VKIMAGE_LIMIT_SIZE / width / height
  }

  /** Dividing twice never overflows and loses nothing: accepted are exactly the sizes without a zero
      whose volume, over the integers, keeps to the limit. */
  lemma GuardExact(width: uint32, height: uint32, depth: uint32)
    ensures !SizeRefused(width, height, depth) <==>
            && width != 0 && height != 0 && depth != 0
            && width as int * height as int * depth as int <= 100_000_000
  {
    if width != 0 && height != 0 {
      var quotient := VKIMAGE_LIMIT_SIZE / width;
      assert quotient as int == 100_000_000 / width as int;
      assert (quotient / height) as int == quotient as int / height as int;
      DivideTwice(width as int, height as int, depth as int, 100_000_000);
    }
  }

  lemma DivideTwice(a: nat, b: nat, c: nat, limit: nat)
    requires a > 0 && b > 0
    ensures c <= limit / a / b <==> a * b * c <= limit
  {
    DivideOnce(b, c, limit / a);
    DivideOnce(a, b * c, limit);
    assert a * (b * c) == a * b * c;
  }

  lemma DivideOnce(a: nat, c: nat, limit: nat)
    requires a > 0
    ensures c <= limit / a <==> a * c <= limit
  {
    var q := limit / a;
    assert limit == a * q + limit % a;
    if c <= q {
      assert a * c <= a * q;
    } else {
      assert a * c >= a * (q + 1) == a * q + a;
    }
  }

  function Mask(i: nat): bv32
    requires i < MAX_MEMORY_TYPES
  {
    (1 as bv32) << i
  }

  /** The buffer admits memory type i. */
  predicate Admits(memoryTypeBits: bv32, i: nat)
    requires i < MAX_MEMORY_TYPES
  {
    memoryTypeBits & Mask(i) != 0
  }

  predicate IsLocal(flags: bv32) {
    flags & DEVICE_LOCAL_BIT == DEVICE_LOCAL_BIT
  }

  const POWERS: seq<bv32> := [
    0x1, 0x2, 0x4, 0x8, 0x10, 0x20, 0x40, 0x80, 0x100, 0x200, 0x400, 0x800, 0x1000, 0x2000, 0x4000, 0x8000,
    0x1_0000, 0x2_0000, 0x4_0000, 0x8_0000, 0x10_0000, 0x20_0000, 0x40_0000, 0x80_0000, 0x100_0000, 0x200_0000,
    0x400_0000, 0x800_0000, 0x1000_0000, 0x2000_0000, 0x4000_0000, 0x8000_0000]

  /** The buffer admits memory type i exactly if its mask has the bit worth 2 to the power of i. */
  lemma AdmitsPower(memoryTypeBits: bv32, i: nat)
    requires i < MAX_MEMORY_TYPES
    ensures Admits(memoryTypeBits, i) <==> memoryTypeBits & POWERS[i] != 0
  {
    MaskPower(i);
    hide Mask;
  }

  lemma MaskPower(i: nat)
    requires i < MAX_MEMORY_TYPES
    ensures Mask(i) == POWERS[i]
  {
    if i < 8 {
      Masks0(i);
    } else if i < 16 {
      Masks8(i);
    } else if i < 24 {
      Masks16(i);
    } else {
      Masks24(i);
    }
  }

  lemma Masks0(i: nat)
    requires i < 8
    ensures Mask(i) == POWERS[i]
  {
    match i
    case 0 => case 1 => case 2 => case 3 => case 4 => case 5 => case 6 => case 7 =>
  }

  lemma Masks8(i: nat)
    requires 8 <= i < 16
    ensures Mask(i) == POWERS[i]
  {
    match i
    case 8 => case 9 => case 10 => case 11 => case 12 => case 13 => case 14 => case 15 =>
  }

  lemma Masks16(i: nat)
    requires 16 <= i < 24
    ensures Mask(i) == POWERS[i]
  {
    match i
    case 16 => case 17 => case 18 => case 19 => case 20 => case 21 => case 22 => case 23 =>
  }

  lemma Masks24(i: nat)
    requires 24 <= i < 32
    ensures Mask(i) == POWERS[i]
  {
    match i
    case 24 => case 25 => case 26 => case 27 => case 28 => case 29 => case 30 => case 31 =>
  }

  lemma LocalBit(flags: bv32)
    ensures IsLocal(flags) <==> flags & 1 != 0
  {
  }

  /** Memory type i is one the buffer admits, and local to the device. */
  predicate Fits(memoryTypeBits: bv32, flags: seq<bv32>, i: nat)
    requires i < |flags| <= MAX_MEMORY_TYPES
  {
    Admits(memoryTypeBits, i) && IsLocal(flags[i])
  }

  /** The first fitting memory type, if there is any. */
  method FindMemoryType(memoryTypeBits: bv32, flags: seq<bv32>) returns (found: Option<nat>)
    requires |flags| <= MAX_MEMORY_TYPES
    ensures found.Some? ==> found.value < |flags| && Fits(memoryTypeBits, flags, found.value)
    ensures found.Some? ==> forall i :: 0 <= i < found.value ==> !Fits(memoryTypeBits, flags, i)
    ensures found.None? ==> forall i :: 0 <= i < |flags| ==> !Fits(memoryTypeBits, flags, i)
  {
    hide Admits, IsLocal;
    var i := 0;
    while i < |flags|
      invariant 0 <= i <= |flags|
      invariant forall j :: 0 <= j < i ==> !Fits(memoryTypeBits, flags, j)
    {
      if Admits(memoryTypeBits, i) {
        if IsLocal(flags[i]) {
          return Some(i);
        }
      }
      i := i + 1;
    }
    return None;
  }

  method GetNativeBufferFormatProperties() returns (properties: Option<BufferProperties>)
  {
    properties := *;
  }

  method GetMemoryTypes() returns (flags: seq<bv32>)
    ensures |flags| <= MAX_MEMORY_TYPES
  {
    flags := *;
    if |flags| > MAX_MEMORY_TYPES {
      flags := flags[..MAX_MEMORY_TYPES];
    }
  }

  method CreateVkImage(device: Device, width: uint32, height: uint32, depth: uint32, format: int, usage: bv32)
    returns (image: Handle)
    requires device.Valid()
    modifies device`live, device`next, device`imageInfo
    ensures device.Valid()
    ensures image == Null ==>
              device.live == old(device.live) && device.next == old(device.next) &&
              device.imageInfo == old(device.imageInfo)
    ensures image != Null ==>
              && device.Created(image, ImageKind)
              && device.imageInfo ==
                   old(device.imageInfo)[image := ImageInfo(width as int, height as int, depth as int, format, usage)]
    ensures image != Null ==> 0 < width as int * height as int * depth as int <= 100_000_000
  {
    hide SizeRefused;
    AcceptedVolume(width, height, depth);
    if SizeRefused(width, height, depth) {
      return Null;
    }
    image := device.CreateImage(ImageInfo(width as int, height as int, depth as int, format, usage));
  }

  lemma AcceptedVolume(width: uint32, height: uint32, depth: uint32)
    ensures !SizeRefused(width, height, depth) ==> 0 < width as int * height as int * depth as int <= 100_000_000
  {
    GuardExact(width, height, depth);
    hide SizeRefused;
    if width != 0 && height != 0 && depth != 0 {
      PositiveVolume(width as int, height as int, depth as int);
    }
  }

  lemma PositiveVolume(a: int, b: int, c: int)
    requires a > 0 && b > 0 && c > 0
    ensures a * b * c > 0
  {
    assert a * b > 0;
  }

  /** Memory of the first fitting type, for the image and from the buffer; without it the image goes as
      well. */
  method AllocateDeviceMemory(device: Device, image: Handle, buffer: nat, properties: BufferProperties)
    returns (memory: Handle, ghost flags: seq<bv32>)
    requires device.Valid() && image in device.live && image.kind.ImageKind?
    modifies device`live, device`next, device`memoryInfo
    ensures device.Valid()
    ensures memory == Null ==>
              device.live == old(device.live) - {image} && device.next == old(device.next) &&
              device.memoryInfo == old(device.memoryInfo)
    ensures memory != Null ==>
              && device.Created(memory, MemoryKind) && memory in device.memoryInfo
              && var info := device.memoryInfo[memory];
              && device.memoryInfo == old(device.memoryInfo)[memory := info]
              && info.buffer == buffer && info.size == properties.allocationSize && info.image == image
              && info.typeIndex < |flags| <= MAX_MEMORY_TYPES
              && Fits(properties.memoryTypeBits, flags, info.typeIndex)
              && forall i :: 0 <= i < info.typeIndex ==> !Fits(properties.memoryTypeBits, flags, i)
  {
    hide Admits, IsLocal;
    var types := GetMemoryTypes();
    flags := types;
    var found := FindMemoryType(properties.memoryTypeBits, types);
    if found.None? {
      device.Destroy(image);
      return Null, flags;
    }
    memory := device.AllocateMemory(MemoryInfo(buffer, properties.allocationSize, found.value, image));
    if memory == Null {
      device.Destroy(image);
    }
  }

  /** Bind the two together; where that fails both go. */
  method BindImageMemory(device: Device, image: Handle, memory: Handle) returns (ok: bool)
    requires device.Valid() && image != memory
    requires image in device.live && image.kind.ImageKind? && memory in device.live && memory.kind.MemoryKind?
    modifies device`live, device`boundTo
    ensures device.Valid() && device.live == if ok then old(device.live) else old(device.live) - {image} - {memory}
    ensures device.boundTo == if ok then old(device.boundTo)[image := memory] else old(device.boundTo)
  {
    var r := device.BindImageMemory(image, memory);
    if r != Success {
      device.Destroy(image);
      device.Destroy(memory);
      return false;
    }
    return true;
  }

  /** A texture with an image and a memory of its own. */
  ghost predicate Whole(t: Texture) {
    t.image.Handle? && t.image.kind.ImageKind? && t.memory.Handle? && t.memory.kind.MemoryKind?
  }

  ghost function Parts(t: Texture): set<Handle> {
    {t.image, t.memory}
  }

  /** All or nothing, whatever fails: either one new image and one new memory, and nothing else, came
      to life, or nothing did. The image has the size that was asked for and the buffer's format, and is
      bound to the memory, which is imported from the buffer. */
  method MakeVKTextureInfoFromHardwareBuffer(device: Device, buffer: nat, width: uint32, height: uint32)
    returns (texture: Option<Texture>, ghost properties: Option<BufferProperties>)
    requires device.Valid()
    modifies device`live, device`next, device`imageInfo, device`memoryInfo, device`boundTo
    ensures device.Valid() && device.next >= old(device.next)
    ensures texture.None? ==> device.live == old(device.live)
    ensures texture.Some? ==> Whole(texture.value) && device.live == old(device.live) + Parts(texture.value)
    ensures texture.Some? ==> texture.value.image.id >= old(device.next) && texture.value.memory.id >= old(device.next)
    ensures texture.Some? ==> buffer != 0 && 0 < width as int * height as int <= 100_000_000
    ensures texture.Some? ==>
              var t := texture.value;
              && properties.Some? && t.format == properties.value.format && t.size == properties.value.allocationSize
              && t.image in device.imageInfo
              && device.imageInfo[t.image] == ImageInfo(width as int, height as int, 1, t.format, t.usage)
              && t.memory in device.memoryInfo && device.memoryInfo[t.memory].buffer == buffer
              && device.memoryInfo[t.memory].size == t.size && device.memoryInfo[t.memory].image == t.image
              && t.image in device.boundTo && device.boundTo[t.image] == t.memory
    ensures texture.Some? ==>
              texture.value.usage == if texture.value.format == FORMAT_UNDEFINED then USAGE_SAMPLED
                                     else USAGE_SAMPLED | USAGE_TRANSFER_SRC | USAGE_TRANSFER_DST
    ensures texture.Some? ==> texture.value.usage == if texture.value.format == 0 then 4 else 7
  {
    properties := None;
    if buffer == 0 {
      return None, None;
    }
    var got := GetNativeBufferFormatProperties();
    properties := got;
    if got.None? {
      return None, None;
    }
    var usage := USAGE_SAMPLED;
    if got.value.format != FORMAT_UNDEFINED {
      usage := usage | USAGE_TRANSFER_SRC | USAGE_TRANSFER_DST;
    }
    var image := CreateVkImage(device, width, height, 1, got.value.format, usage);
    if image == Null {
      return None, properties;
    }
    ghost var flags;
    var memory;
    memory, flags := AllocateDeviceMemory(device, image, buffer, got.value);
    if memory == Null {
      return None, properties;
    }
    var bound := BindImageMemory(device, image, memory);
    if !bound {
      return None, properties;
    }
    texture := Some(Texture(image, memory, got.value.allocationSize, got.value.format, usage));
  }
}
