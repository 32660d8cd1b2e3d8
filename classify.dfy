/** Overload resolution of Write<T> and Read<T>, made explicit: which wire
    shape a C++ type is written and read as, or None where the call does not
    build (only the undefined primary template matches, which fails at link
    time; the call is ambiguous; or the overload is deleted). The Current
    version is ZSerializer.hpp, the Legacy version ZSerializer.h. */
module Classify {
  import opened Bytes
  import opened Shapes
  import opened Format

  datatype Version = Legacy | Current

  /** What a Trait<T> specialisation provides: nothing, the member-wise
      routines (WriteMembers/ReadMembers over Trait<T>::members) or the
      bitwise ones (WriteBitwise/ReadBitwise). */
  datatype Registration = Unregistered | MemberTrait | BitwiseTrait

  /** The C++ types the overload sets tell apart. A Scalar is an arithmetic,
      enumeration or non-char pointer type of the given sizeof; a Struct
      lists its members' types, its sizeof, whether it is plain (trivial and
      standard-layout apart from its members) and its Trait registration. */
  datatype CType =
    | BoolT
    | Scalar(size: nat)
    | CharPtr
    | StdString
    | StdStringView
    | StdOptional(inner: CType)
    | StdVector(elem: CType)
    | StdArray(elem: CType, n: nat)
    | Struct(fields: seq<CType>, size: nat, plain: bool, reg: Registration)

  /** sizeof(const char*) on the 64-bit host. */
  const PointerWidth: nat := 8

  /** sizeof(std::array<T, 0>): no C++ object has size 0. The host's
      standard library (libstdc++) gives the empty array an empty member, so
      its size is 1. */
  const EmptyArrayWidth: nat := 1

  /** std::is_pod_v<T>: scalars and pointers are POD; strings, views,
      optionals and vectors are not; an array is POD when its element is, and
      an empty one always (libstdc++ stores an empty struct in place of the
      elements of std::array<T, 0>, whatever T is); a struct when it is plain
      and every member is POD. */
  predicate IsPod(t: CType)
    decreases t
  {
    match t
    case BoolT => true
    case Scalar(_) => true
    case CharPtr => true
    case StdString => false
    case StdStringView => false
    case StdOptional(_) => false
    case StdVector(_) => false
    case StdArray(e, n) => n == 0 || IsPod(e)
    case Struct(fs, _, plain, _) => plain && forall i | 0 <= i < |fs| :: IsPod(fs[i])
  }

  /** sizeof(T) of a POD type. */
  function Width(t: CType): nat
    requires IsPod(t)
    decreases t
  {
    match t
    case BoolT => 1
    case Scalar(size) => size
    case CharPtr => PointerWidth
    case StdArray(e, n) => if n == 0 then EmptyArrayWidth else n * Width(e)
    case Struct(_, size, _, _) => size
  }

  /** The shape Write(out, value) writes a T as, or None when the call does
      not build. The std::array overload is more specialised than the POD
      one, so an array of non-POD elements is written element by element even
      when the array itself is POD (the empty one: no bytes at all). */
  function ClassifyWrite(ver: Version, t: CType): Option<Shape>
    decreases t, 1
  {
    match t
    case BoolT => Some(Bool)
    case Scalar(size) => Some(Pod(size))
    case CharPtr => if ver == Current then Some(Text) else None
    case StdString => Some(Text)
    case StdStringView => Some(Text)
    case StdOptional(e) =>
      var inner := ClassifyWrite(ver, e);
      if inner.None? then None else Some(Optional(inner.value))
    case StdVector(e) =>
      if e == BoolT then None
      else if IsPod(e) then Some(PodVector(Width(e)))
      else
        var elem := ClassifyWrite(ver, e);
        if elem.None? then None else Some(Vector(elem.value))
    case StdArray(e, n) =>
      if IsPod(e) then Some(Pod(Width(t)))
      else
        var elem := ClassifyWrite(ver, e);
        if elem.None? then None else Some(Array(n, elem.value))
    case Struct(fs, size, _, reg) =>
      if reg == Unregistered then (if IsPod(t) then Some(Pod(size)) else None)
      else if IsPod(t) then None
      else if reg == MemberTrait then
        var members := ClassifyWriteAll(ver, fs);
        if members.None? then None else Some(Members(members.value))
      else if ver == Current then Some(Pod(size))
      else None
  }

  function ClassifyWriteAll(ver: Version, fs: seq<CType>): Option<seq<Shape>>
    decreases fs, 0
  {
    if fs == [] then Some([])
    else
      var h := ClassifyWrite(ver, fs[0]);
      var t := ClassifyWriteAll(ver, fs[1..]);
      if h.None? || t.None? then None else Some([h.value] + t.value)
  }

  /** The shape Read<T>(in) reads a T as, or None when the call does not
      build. The read overloads differ only in their constraints, so an empty
      std::array of non-POD elements, which satisfies both the POD constraint
      and the array one and neither of which subsumes the other, is an
      ambiguous call. */
  function ClassifyRead(ver: Version, t: CType): Option<Shape>
    decreases t, 1
  {
    match t
    case BoolT => Some(Bool)
    case Scalar(size) => Some(Pod(size))
    case CharPtr => Some(Pod(PointerWidth))
    case StdString => Some(Text)
    case StdStringView => None
    case StdOptional(e) =>
      var inner := ClassifyRead(ver, e);
      if inner.None? then None else Some(Optional(inner.value))
    case StdVector(e) =>
      if e == BoolT then None
      else if IsPod(e) then Some(PodVector(Width(e)))
      else
        var elem := ClassifyRead(ver, e);
        if elem.None? then None else Some(Vector(elem.value))
    case StdArray(e, n) =>
      if IsPod(e) then Some(Pod(Width(t)))
      else if n == 0 then None
      else
        var elem := ClassifyRead(ver, e);
        if elem.None? then None else Some(Array(n, elem.value))
    case Struct(fs, size, _, reg) =>
      if ver == Legacy || reg == Unregistered then (if IsPod(t) then Some(Pod(size)) else None)
      else if IsPod(t) then None
      else if reg == MemberTrait then
        var members := ClassifyReadAll(ver, fs);
        if members.None? then None else Some(Members(members.value))
      else Some(Pod(size))
  }

  function ClassifyReadAll(ver: Version, fs: seq<CType>): Option<seq<Shape>>
    decreases fs, 0
  {
    if fs == [] then Some([])
    else
      var h := ClassifyRead(ver, fs[0]);
      var t := ClassifyReadAll(ver, fs[1..]);
      if h.None? || t.None? then None else Some([h.value] + t.value)
  }

  /** t has no const char* and no string view outside a POD part (the two
      types whose write overload has no matching read overload) and no empty
      std::array of non-POD elements (written, but ambiguous to read) where
      its members are read one by one. */
  predicate ReadableAsWritten(t: CType)
    decreases t
  {
    match t
    case CharPtr => false
    case StdStringView => false
    case StdOptional(e) => ReadableAsWritten(e)
    case StdVector(e) => IsPod(e) || ReadableAsWritten(e)
    case StdArray(e, n) => IsPod(e) || (n > 0 && ReadableAsWritten(e))
    case Struct(fs, _, _, reg) =>
      IsPod(t) || reg != MemberTrait || forall i | 0 <= i < |fs| :: ReadableAsWritten(fs[i])
    case _ => true
  }

  /** In ZSerializer.hpp every type that is ReadableAsWritten is read with
      exactly the shape it is written with, and one builds exactly when the
      other does. */
  lemma {:induction false} CurrentReadsAsWritten(t: CType)
    requires ReadableAsWritten(t)
    ensures ClassifyRead(Current, t) == ClassifyWrite(Current, t)
    decreases t, 1
  {
    match t
    case BoolT =>
    case Scalar(_) =>
    case StdString =>
    case StdOptional(e) =>
      CurrentReadsAsWritten(e);
    case StdVector(e) =>
      if !IsPod(e) {
        CurrentReadsAsWritten(e);
      }
    case StdArray(e, _) =>
      if !IsPod(e) {
        CurrentReadsAsWritten(e);
      }
    case Struct(fs, _, _, reg) =>
      if !IsPod(t) && reg == MemberTrait {
        CurrentReadsAllAsWritten(fs);
      }
  }

  lemma {:induction false} CurrentReadsAllAsWritten(fs: seq<CType>)
    requires forall i | 0 <= i < |fs| :: ReadableAsWritten(fs[i])
    ensures ClassifyReadAll(Current, fs) == ClassifyWriteAll(Current, fs)
    decreases fs, 0
  {
    if fs != [] {
      CurrentReadsAsWritten(fs[0]);
      assert forall i | 0 <= i < |fs| - 1 :: fs[1..][i] == fs[i + 1];
      CurrentReadsAllAsWritten(fs[1..]);
    }
  }

  /** ZSerializer.h resolves a call only where ZSerializer.hpp resolves it
      the same way: the older header writes a subset of what the newer one
      writes, with the same bytes. */
  lemma {:induction false} LegacyWritesAsCurrent(t: CType)
    requires ClassifyWrite(Legacy, t).Some?
    ensures ClassifyWrite(Current, t) == ClassifyWrite(Legacy, t)
    decreases t, 1
  {
    match t
    case BoolT =>
    case Scalar(_) =>
    case StdString =>
    case StdStringView =>
    case StdOptional(e) =>
      LegacyWritesAsCurrent(e);
    case StdVector(e) =>
      if !IsPod(e) {
        LegacyWritesAsCurrent(e);
      }
    case StdArray(e, _) =>
      if !IsPod(e) {
        LegacyWritesAsCurrent(e);
      }
    case Struct(fs, _, _, reg) =>
      if reg == MemberTrait && !IsPod(t) {
        LegacyWritesAllAsCurrent(fs);
      }
  }

  lemma {:induction false} LegacyWritesAllAsCurrent(fs: seq<CType>)
    requires ClassifyWriteAll(Legacy, fs).Some?
    ensures ClassifyWriteAll(Current, fs) == ClassifyWriteAll(Legacy, fs)
    decreases fs, 0
  {
    if fs != [] {
      LegacyWritesAsCurrent(fs[0]);
      LegacyWritesAllAsCurrent(fs[1..]);
    }
  }

  /** Where both headers can read a type they read it the same way; they
      differ only in which types they accept (the older one reads a
      registered POD struct bitwise, the newer one finds that call
      ambiguous; the older one cannot read a registered non-POD struct). */
  lemma {:induction false} ReadersAgree(t: CType)
    requires ClassifyRead(Legacy, t).Some? && ClassifyRead(Current, t).Some?
    ensures ClassifyRead(Current, t) == ClassifyRead(Legacy, t)
    decreases t, 1
  {
    match t
    case BoolT =>
    case Scalar(_) =>
    case CharPtr =>
    case StdString =>
    case StdOptional(e) =>
      ReadersAgree(e);
    case StdVector(e) =>
      if !IsPod(e) {
        ReadersAgree(e);
      }
    case StdArray(e, _) =>
      if !IsPod(e) {
        ReadersAgree(e);
      }
    case Struct(_, _, _, _) =>
  }

  /** A registered struct that is also POD matches both the Trait overload
      and the POD overload, which the compiler cannot order: its Write does
      not compile in either header, nor its Read in ZSerializer.hpp. */
  lemma RegisteredPodIsAmbiguous(ver: Version, t: CType)
    requires t.Struct? && t.reg != Unregistered && IsPod(t)
    ensures ClassifyWrite(ver, t).None?
    ensures ver == Current ==> ClassifyRead(ver, t).None?
    ensures ver == Legacy ==> ClassifyRead(ver, t) == Some(Pod(t.size))
  {
  }

  /** The older header has no Trait read overload: a registered struct that
      is not POD can be written but never read back. */
  lemma LegacyCannotReadTraits(t: CType)
    requires t.Struct? && t.reg == MemberTrait && !IsPod(t)
    ensures ClassifyRead(Legacy, t).None?
  {
  }

  /** A const char* is written as the std::string holding the same
      characters in ZSerializer.hpp, and its write overload is deleted in
      ZSerializer.h; reading a const char* reads the pointer's own bytes. */
  lemma CStringIsWrittenAsString(ver: Version)
    ensures ver == Current ==> ClassifyWrite(ver, CharPtr) == ClassifyRead(ver, StdString)
    ensures ver == Legacy ==> ClassifyWrite(ver, CharPtr).None?
    ensures ClassifyRead(ver, CharPtr) == Some(Pod(PointerWidth))
  {
  }

  /** A string view is written as a std::string and has no read overload. */
  lemma StringViewIsWrittenAsString(ver: Version)
    ensures ClassifyWrite(ver, StdStringView) == ClassifyRead(ver, StdString)
    ensures ClassifyRead(ver, StdStringView).None?
  {
  }

  /** std::vector<bool> has no data(), so neither block overload compiles. */
  lemma VectorOfBoolRejected(ver: Version)
    ensures ClassifyWrite(ver, StdVector(BoolT)).None?
    ensures ClassifyRead(ver, StdVector(BoolT)).None?
  {
  }

  /** Every POD type other than const char* that Write accepts is written as
      its object image, exactly sizeof(T) bytes with no prefix, except the
      empty std::array of non-POD elements: the array overload takes it and
      writes nothing. */
  lemma {:induction false} PodWritesSizeofBytes(ver: Version, t: CType, v: Value)
    requires IsPod(t) && t != CharPtr
    requires ClassifyWrite(ver, t).Some? && WellTyped(ClassifyWrite(ver, t).value, v)
    ensures !(t.StdArray? && !IsPod(t.elem)) ==> |Encode(ClassifyWrite(ver, t).value, v)| == Width(t)
    ensures t.StdArray? && !IsPod(t.elem) ==> Encode(ClassifyWrite(ver, t).value, v) == []
  {
    match t
    case BoolT =>
    case Scalar(_) =>
    case StdArray(e, n) =>
      if !IsPod(e) {
        assert n == 0 && v.elems == [];
      }
    case Struct(_, _, _, _) =>
  }

  /** std::array<T, 0> with T not POD is POD of size 1 under libstdc++: Write
      takes the array overload and writes no bytes, Read is ambiguous, and a
      vector of such arrays is a vector of POD written as one raw block. */
  lemma EmptyArrayOfNonPod(ver: Version, e: CType)
    requires !IsPod(e)
    ensures IsPod(StdArray(e, 0)) && Width(StdArray(e, 0)) == EmptyArrayWidth
    ensures ClassifyWrite(ver, e).Some? ==>
      ClassifyWrite(ver, StdArray(e, 0)) == Some(Array(0, ClassifyWrite(ver, e).value))
    ensures ClassifyRead(ver, StdArray(e, 0)).None?
    ensures ClassifyWrite(ver, StdVector(StdArray(e, 0))) == Some(PodVector(EmptyArrayWidth))
    ensures ClassifyRead(ver, StdVector(StdArray(e, 0))) == Some(PodVector(EmptyArrayWidth))
  {
  }
}
