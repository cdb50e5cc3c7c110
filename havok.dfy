/** Host-side Havok data layout: machine integers, transforms and the
    flat `hkaArray<T>` buffer through which every skeleton and pose array
    is reached. Floating-point components are never computed on, only
    copied, so they stay an opaque type parameter `F`. */
module Havok {

  /** 64-bit unsigned values: pointers and `ulong` results. */
  type u64 = x: int | 0 <= x < 0x1_0000_0000_0000_0000
  /** 32-bit unsigned values: `uint` indices and object ids. */
  type u32 = x: int | 0 <= x < 0x1_0000_0000
  /** 32-bit signed values: C# `int`. */
  type i32 = x: int | -0x8000_0000 <= x < 0x8000_0000
  /** 8-bit unsigned values: C# `byte`. */
  type u8 = x: int | 0 <= x < 0x100
  /** 16-bit unsigned values: the `ushort` bone id of the bone-write entry point. */
  type u16 = x: int | 0 <= x < 0x1_0000

  /** A host address; zero is the null pointer. */
  type Addr = u64

  const Null: Addr := 0

  /** `uint.MaxValue`, the "nothing selected" sentinel of the later plugin. */
  const U32Max: u32 := 0xFFFF_FFFF

  /** Largest value of a C# `short`; loop counters of that type wrap past it. */
  const ShortMax: int := 32767

  /** Size in bytes of one `hkQsTransform`: three `hkVector4` of four floats. */
  const TransformSize: int := 48

  /** A managed reference that may be null. */
  datatype Option<T> = None | Some(value: T)

  /** `hkVector4`: four float components. */
  datatype Vector4<F> = Vector4(x: F, y: F, z: F, w: F)

  /** `hkQsTransform`: translation, rotation (a quaternion in x, y, z, w) and scale. */
  datatype Transform<F> = Transform(translation: Vector4<F>, rotation: Vector4<F>, scale: Vector4<F>)

  /** The two fields of an `hkaPose` that the detours read: the skeleton
      pointer and the data pointer of the model-space transform array. */
  datatype PoseHeader = PoseHeader(skeletonPointer: Addr, modelPoseData: Addr)

  /** `hkaArray<T>`: a data buffer and the number of elements in use.
      Both indexers and `CopyToList` work on `data[..length]`. */
  class HkaArray<T> {
    const data: array<T>
    var length: int

    ghost predicate Valid()
      reads this
    {
      0 <= length <= data.Length
    }

    /** The elements in use. */
    ghost function Contents(): seq<T>
      reads this, data
      requires Valid()
    {
      data[..length]
    }

    constructor (buffer: array<T>, count: int)
      requires 0 <= count <= buffer.Length
      ensures Valid() && data == buffer && length == count
      ensures Contents() == buffer[..count]
    {
      data := buffer;
      length := count;
    }

    /** The `int` indexer's getter: element `index` of the buffer. */
    function At(index: int): (r: T)
      reads this, data
      requires Valid() && 0 <= index < length
      ensures r == Contents()[index]
    {
      data[index]
    }

    /** The `uint` indexer's getter. */
    function AtUnsigned(index: u32): (r: T)
      reads this, data
      requires Valid() && index < length
      ensures r == Contents()[index]
    {
      data[index]
    }

    /** The `int` indexer's setter: overwrites element `index` in place. */
    method Set(index: int, value: T)
      requires Valid() && 0 <= index < length
      modifies data
      ensures Valid() && length == old(length)
      ensures data[..] == old(data[..])[index := value]
      ensures Contents() == old(Contents())[index := value]
    {
      data[index] := value;
    }

    /** The `uint` indexer's setter. */
    method SetUnsigned(index: u32, value: T)
      requires Valid() && index < length
      modifies data
      ensures Valid() && length == old(length)
      ensures data[..] == old(data[..])[index := value]
      ensures Contents() == old(Contents())[index := value]
    {
      data[index] := value;
    }

    /** `CopyToList`: a fresh list holding the elements in use, in order;
        the buffer is only read. */
    method CopyToList() returns (r: seq<T>)
      requires Valid()
      ensures |r| == length && r == Contents()
      ensures forall i :: 0 <= i < length ==> r[i] == data[i]
    {
      r := [];
      var i := 0;
      while i < length
        invariant 0 <= i <= length
        invariant r == data[..i]
      {
        r := r + [data[i]];
        i := i + 1;
      }
    }
  }

  /** The two indexers address the same element for equal numeric indices. */
  lemma IndexersAgree<T>(a: HkaArray<T>, i: u32)
    requires a.Valid() && i < a.length
    ensures a.AtUnsigned(i) == a.At(i)
  {
  }

}
