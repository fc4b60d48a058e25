/**
 * The surface part of the cairo binding for Python: wrapping a native
 * `cairo_surface_t` in the Python class that matches its type tag, the
 * lifetime of that wrapper, the argument checks of
 * `ImageSurface.create_for_data`, and the filename-or-stream choice of the
 * document and PNG constructors.
 *
 * Cairo itself is opaque. A native surface is an identity with a status and a
 * type tag; what cairo returns from a creation call is a parameter. The
 * bookkeeping the binding is responsible for is a `World`: how often each
 * native surface has been destroyed, and how many references the wrappers
 * hold on each Python object.
 */
module CairoSurface {
  import opened Results

  // ---------------------------------------------------------------------------
  // Native side
  // ---------------------------------------------------------------------------

  /** `cairo_status_t`, with the codes the binding itself produces named. */
  datatype Status = Success | NoMemory | ReadError | WriteError | OtherError(code: nat)

  /** `cairo_surface_type_t`; backends this binding has no class for are `OtherType`. */
  datatype SurfaceType = Image | Pdf | Ps | Svg | Win32 | Xlib | Quartz | OtherType(code: nat)

  /** An opaque native surface: identity, error status, type tag and finished flag. */
  datatype NativeSurface = NativeSurface(id: nat, status: Status, stype: SurfaceType, finished: bool)

  /** The `CAIRO_HAS_*_SURFACE` switches the binding was compiled with. */
  datatype Build = Build(hasPdf: bool, hasPs: bool, hasSvg: bool, hasWin32: bool, hasXlib: bool, hasQuartz: bool)

  /** A Python object, by identity. */
  type ObjId = nat

  /**
   * `destroyed` counts the `cairo_surface_destroy` calls per native surface;
   * `refs` counts the references wrappers hold per Python object.
   */
  datatype World = World(destroyed: multiset<nat>, refs: multiset<ObjId>)

  // ---------------------------------------------------------------------------
  // Python side
  // ---------------------------------------------------------------------------

  /** The Python classes a native surface can be wrapped in. */
  datatype WrapperType =
    ImageSurface | PDFSurface | PSSurface | SVGSurface | Win32Surface | XlibSurface | QuartzSurface

  /** A `PycairoSurface`: its class, the native surface (NULL after dealloc) and the keep-alive `base`. */
  datatype Wrapper = Wrapper(wtype: WrapperType, surface: Option<NativeSurface>, base: Option<ObjId>)

  /** The Python exceptions this file raises or lets through. */
  datatype Error =
    | StatusError(status: Status)      // raised by Pycairo_Check_Status for a non-success status
    | CairoError(message: string)      // CairoError with a message of the binding's own
    | ValueError(message: string)
    | TypeError(message: string)
    | MemoryError                      // tp_alloc failed
    | NotWritableBuffer                // raised by PyObject_AsWriteBuffer

  datatype Wrapped = Wrapped(world: World, result: Result<Wrapper, Error>)

  function RefOf(base: Option<ObjId>): multiset<ObjId> {
    if base.Some? then multiset{base.value} else multiset{}
  }

  // ---------------------------------------------------------------------------
  // Registry: type tag to wrapper class
  // ---------------------------------------------------------------------------

  /** Whether the binding has a class for a type tag: image always, the rest when compiled in. */
  predicate Compiled(build: Build, t: SurfaceType) {
    match t
    case Image => true
    case Pdf => build.hasPdf
    case Ps => build.hasPs
    case Svg => build.hasSvg
    case Win32 => build.hasWin32
    case Xlib => build.hasXlib
    case Quartz => build.hasQuartz
    case OtherType(_) => false
  }

  /** The type tag each wrapper class stands for. */
  function NativeTypeOf(wt: WrapperType): SurfaceType {
    match wt
    case ImageSurface => Image
    case PDFSurface => Pdf
    case PSSurface => Ps
    case SVGSurface => Svg
    case Win32Surface => Win32
    case XlibSurface => Xlib
    case QuartzSurface => Quartz
  }

  /** The `switch` of `PycairoSurface_FromSurface`. */
  function WrapperTypeFor(build: Build, t: SurfaceType): (r: Option<WrapperType>)
    ensures r.Some? <==> Compiled(build, t)
    ensures r.Some? ==> NativeTypeOf(r.value) == t
  {
    match t
    case Image => Some(ImageSurface)
    case Pdf => if build.hasPdf then Some(PDFSurface) else None
    case Ps => if build.hasPs then Some(PSSurface) else None
    case Svg => if build.hasSvg then Some(SVGSurface) else None
    case Win32 => if build.hasWin32 then Some(Win32Surface) else None
    case Xlib => if build.hasXlib then Some(XlibSurface) else None
    case Quartz => if build.hasQuartz then Some(QuartzSurface) else None
    case OtherType(_) => None
  }

  /** Each compiled-in class is chosen for exactly its own tag and no other. */
  lemma RegistryExact(build: Build, wt: WrapperType, t: SurfaceType)
    ensures WrapperTypeFor(build, t) == Some(wt) <==> t == NativeTypeOf(wt) && Compiled(build, t)
  {
  }

  // ---------------------------------------------------------------------------
  // PycairoSurface_FromSurface
  // ---------------------------------------------------------------------------

  /**
   * `PycairoSurface_FromSurface(surface, base)`. `allocOk` is whether
   * `tp_alloc` succeeds.
   */
  function FromSurface(build: Build, w: World, s: NativeSurface, base: Option<ObjId>, allocOk: bool): (r: Wrapped)
    ensures s.status != Success ==>
      r == Wrapped(w.(destroyed := w.destroyed + multiset{s.id}), Err(StatusError(s.status)))
    ensures s.status == Success && !Compiled(build, s.stype) ==>
      r == Wrapped(w, Err(CairoError("Unsupported Surface type")))
    ensures s.status == Success && Compiled(build, s.stype) && !allocOk ==>
      r == Wrapped(w.(destroyed := w.destroyed + multiset{s.id}), Err(MemoryError))
    ensures r.result.Ok? <==> s.status == Success && Compiled(build, s.stype) && allocOk
    ensures r.result.Ok? ==>
      && NativeTypeOf(r.result.value.wtype) == s.stype
      && r.result.value.surface == Some(s)
      && r.result.value.base == base
      && r.world == w.(refs := w.refs + RefOf(base))
  {
    if s.status != Success then
      Wrapped(w.(destroyed := w.destroyed + multiset{s.id}), Err(StatusError(s.status)))
    else
      match WrapperTypeFor(build, s.stype)
      case None => Wrapped(w, Err(CairoError("Unsupported Surface type")))
      case Some(wt) =>
        if !allocOk then Wrapped(w.(destroyed := w.destroyed + multiset{s.id}), Err(MemoryError))
        else Wrapped(w.(refs := w.refs + RefOf(base)), Ok(Wrapper(wt, Some(s), base)))
  }

  // ---------------------------------------------------------------------------
  // Lifetime: surface_dealloc and surface_finish
  // ---------------------------------------------------------------------------

  datatype Released = Released(world: World, wrapper: Wrapper)

  /** `surface_dealloc`: destroy the native surface if still held, then drop `base`. */
  function Dealloc(w: World, o: Wrapper): (r: Released)
    ensures r.wrapper == o.(surface := None, base := None)
    ensures r.world.destroyed == w.destroyed + (if o.surface.Some? then multiset{o.surface.value.id} else multiset{})
    ensures r.world.refs == w.refs - RefOf(o.base)
  {
    var w1 := if o.surface.Some? then w.(destroyed := w.destroyed + multiset{o.surface.value.id}) else w;
    Released(w1.(refs := w1.refs - RefOf(o.base)), o.(surface := None, base := None))
  }

  /** Releasing a second time destroys nothing more and drops no further reference. */
  lemma DeallocIdempotent(w: World, o: Wrapper)
    ensures var r := Dealloc(w, o); Dealloc(r.world, r.wrapper) == r
  {
    var r := Dealloc(w, o);
    assert r.world.refs - RefOf(None) == r.world.refs;
    assert r.world.destroyed + multiset{} == r.world.destroyed;
  }

  datatype Finished = Finished(world: World, wrapper: Wrapper, error: Option<Error>)

  /**
   * `surface_finish`: cairo finishes the surface (`engineStatus` is the status
   * that leaves on a surface not already in error; an error status is
   * permanent), `base` is dropped, then the surface's status is reported.
   */
  function Finish(w: World, o: Wrapper, engineStatus: Status): (r: Finished)
    requires o.surface.Some?
    ensures r.world == w.(refs := w.refs - RefOf(o.base))
    ensures r.wrapper.base.None? && r.wrapper.wtype == o.wtype
    ensures r.wrapper.surface.Some? && r.wrapper.surface.value.finished
    ensures r.wrapper.surface.value.id == o.surface.value.id
    ensures o.surface.value.status != Success ==> r.wrapper.surface.value.status == o.surface.value.status
    ensures o.surface.value.status == Success ==> r.wrapper.surface.value.status == engineStatus
    ensures r.wrapper.surface.value.stype == o.surface.value.stype
    ensures r.error.Some? <==> r.wrapper.surface.value.status != Success
    ensures r.error.Some? ==> r.error.value == StatusError(r.wrapper.surface.value.status)
  {
    var s := o.surface.value;
    var after := if s.status == Success then engineStatus else s.status;
    var s' := s.(status := after, finished := true);
    Finished(w.(refs := w.refs - RefOf(o.base)), o.(surface := Some(s'), base := None),
             if after == Success then None else Some(StatusError(after)))
  }

  /** Finishing twice drops the keep-alive reference once only. */
  lemma FinishTwiceDropsBaseOnce(w: World, o: Wrapper, st1: Status, st2: Status)
    requires o.surface.Some?
    ensures var f1 := Finish(w, o, st1);
            Finish(f1.world, f1.wrapper, st2).world == w.(refs := w.refs - RefOf(o.base))
  {
    var f1 := Finish(w, o, st1);
    assert f1.world.refs - RefOf(None) == f1.world.refs;
  }

  /**
   * Ownership balance. Whenever `FromSurface` hands out a wrapper, releasing
   * that wrapper destroys the surface exactly once and returns every
   * reference count to where it was; whenever it fails on a status or an
   * allocation error, it has destroyed the surface exactly once itself.
   */
  lemma OwnershipBalanced(build: Build, w: World, s: NativeSurface, base: Option<ObjId>, allocOk: bool)
    ensures var r := FromSurface(build, w, s, base, allocOk);
            r.result.Ok? ==> Dealloc(r.world, r.result.value).world == w.(destroyed := w.destroyed + multiset{s.id})
    ensures var r := FromSurface(build, w, s, base, allocOk);
            r.result.Err? && (s.status != Success || Compiled(build, s.stype)) ==>
              r.world == w.(destroyed := w.destroyed + multiset{s.id})
  {
    var r := FromSurface(build, w, s, base, allocOk);
    if r.result.Ok? {
      assert w.refs + RefOf(base) - RefOf(base) == w.refs;
    }
  }

  /**
   * The unsupported-type path leaks, as written: a healthy surface whose tag
   * the build has no class for is neither wrapped nor destroyed, although
   * the function's own comment promises it is unreferenced when creation fails.
   */
  lemma UnsupportedTypeLeaks(build: Build, w: World, s: NativeSurface, base: Option<ObjId>, allocOk: bool)
    requires s.status == Success && !Compiled(build, s.stype)
    ensures FromSurface(build, w, s, base, allocOk).result.Err?
    ensures FromSurface(build, w, s, base, allocOk).world.destroyed[s.id] == w.destroyed[s.id]
  {
  }

  /**
   * `PycairoSurface_FromSurface` as its comment describes it: the surface is
   * unreferenced on every failure, the unsupported-type one included.
   */
  function FromSurfaceIntended(build: Build, w: World, s: NativeSurface, base: Option<ObjId>,
                               allocOk: bool): (r: Wrapped)
    ensures s.status == Success && !Compiled(build, s.stype) ==>
      r == Wrapped(w.(destroyed := w.destroyed + multiset{s.id}), Err(CairoError("Unsupported Surface type")))
    ensures r.result.Ok? <==> s.status == Success && Compiled(build, s.stype) && allocOk
    ensures r.result.Ok? ==>
      && NativeTypeOf(r.result.value.wtype) == s.stype
      && r.result.value.surface == Some(s)
      && r.result.value.base == base
      && r.world == w.(refs := w.refs + RefOf(base))
  {
    if s.status != Success then
      Wrapped(w.(destroyed := w.destroyed + multiset{s.id}), Err(StatusError(s.status)))
    else
      match WrapperTypeFor(build, s.stype)
      case None => Wrapped(w.(destroyed := w.destroyed + multiset{s.id}), Err(CairoError("Unsupported Surface type")))
      case Some(wt) =>
        if !allocOk then Wrapped(w.(destroyed := w.destroyed + multiset{s.id}), Err(MemoryError))
        else Wrapped(w.(refs := w.refs + RefOf(base)), Ok(Wrapper(wt, Some(s), base)))
  }

  /**
   * The corrected wrapper balances ownership on every path: a failure of any
   * kind destroys the surface exactly once, and a success followed by a
   * release destroys it exactly once and restores every reference count.
   */
  lemma IntendedOwnershipBalanced(build: Build, w: World, s: NativeSurface, base: Option<ObjId>, allocOk: bool)
    ensures var r := FromSurfaceIntended(build, w, s, base, allocOk);
            r.result.Err? ==> r.world == w.(destroyed := w.destroyed + multiset{s.id})
    ensures var r := FromSurfaceIntended(build, w, s, base, allocOk);
            r.result.Ok? ==> Dealloc(r.world, r.result.value).world == w.(destroyed := w.destroyed + multiset{s.id})
  {
    var r := FromSurfaceIntended(build, w, s, base, allocOk);
    if r.result.Ok? {
      assert w.refs + RefOf(base) - RefOf(base) == w.refs;
    }
  }

  /**
   * The correction touches only the unsupported-type path: for a surface in
   * error or with a tag the build has a class for, both versions agree.
   */
  lemma IntendedAgreesOnSupportedTags(build: Build, w: World, s: NativeSurface, base: Option<ObjId>, allocOk: bool)
    ensures s.status != Success || Compiled(build, s.stype) <==>
      FromSurfaceIntended(build, w, s, base, allocOk) == FromSurface(build, w, s, base, allocOk)
  {
    if s.status == Success && !Compiled(build, s.stype) {
      assert FromSurfaceIntended(build, w, s, base, allocOk).world.destroyed[s.id]
          == FromSurface(build, w, s, base, allocOk).world.destroyed[s.id] + 1;
    }
  }

  // ---------------------------------------------------------------------------
  // ImageSurface.create_for_data
  // ---------------------------------------------------------------------------

  /** `cairo_format_t`. */
  datatype Format = ARGB32 | RGB24 | A8 | A1 | RGB16_565 | UnknownFormat(code: int)

  /** Storage bits per pixel of each known format. */
  function BitsPerPixel(f: Format): nat
    requires !f.UnknownFormat?
  {
    match f
    case ARGB32 => 32
    case RGB24 => 32
    case RGB16_565 => 16
    case A8 => 8
    case A1 => 1
  }

  /** The stride `create_for_data` computes when none is given; `None` for an unknown format. */
  function DefaultStride(f: Format, width: int): (r: Option<int>)
    ensures r.Some? <==> !f.UnknownFormat?
    ensures r.Some? && !f.A1? ==> r.value * 8 == width * BitsPerPixel(f)
    ensures f.A1? ==> r == Some((width + 1) / 8)
  {
    match f
    case ARGB32 => Some(width * 4)
    case RGB24 => Some(width * 4)
    case RGB16_565 => Some(width * 2)
    case A8 => Some(width)
    case A1 => Some((width + 1) / 8)
    case UnknownFormat(_) => None
  }

  /**
   * The A1 default, kept as written, holds a row of `width` one-bit pixels
   * only when `width` is 7 or 0 modulo 8; a 2-pixel row gets stride 0.
   */
  lemma A1DefaultStrideHoldsRow(width: int)
    requires width > 0
    ensures DefaultStride(A1, width).value * 8 >= width <==> width % 8 == 0 || width % 8 == 7
    ensures DefaultStride(A1, 2) == Some(0)
  {
    var k, m := width / 8, width % 8;
    assert width == 8 * k + m;
    if m == 7 {
      assert (width + 1) / 8 == k + 1;
    } else {
      assert (width + 1) / 8 == k;
    }
  }

  /** A stride below zero means "compute it"; any other stride is used as given. */
  function EffectiveStride(f: Format, width: int, stride: int): (r: Option<int>)
    ensures stride >= 0 ==> r == Some(stride)
    ensures stride < 0 ==> r == DefaultStride(f, width)
  {
    if stride < 0 then DefaultStride(f, width) else Some(stride)
  }

  /** The Python object passed as the data buffer. */
  datatype BufferArg = BufferArg(obj: ObjId, writable: bool, length: nat)

  /** The arguments of the `cairo_image_surface_create_for_data` call, if it was made. */
  datatype DataCall = DataCall(format: Format, width: int, height: int, stride: int)

  datatype Creation = Creation(world: World, result: Result<Wrapper, Error>, call: Option<DataCall>)

  /**
   * `image_surface_create_for_data`. `stride` is -1 when omitted; `created`
   * is what cairo returns for the call and `allocOk` whether `tp_alloc`
   * succeeds.
   */
  function CreateForData(build: Build, w: World, buffer: BufferArg, format: Format, width: int, height: int,
                         stride: int, created: NativeSurface, allocOk: bool): (r: Creation)
    ensures !buffer.writable ==> r == Creation(w, Err(NotWritableBuffer), None)
    ensures buffer.writable && width <= 0 ==>
      r == Creation(w, Err(ValueError("width must be positive")), None)
    ensures buffer.writable && width > 0 && height <= 0 ==>
      r == Creation(w, Err(ValueError("height must be positive")), None)
    ensures buffer.writable && width > 0 && height > 0 && EffectiveStride(format, width, stride).None? ==>
      r == Creation(w, Err(CairoError("Unknown format")), None)
    ensures buffer.writable && width > 0 && height > 0 && EffectiveStride(format, width, stride).Some?
            && height * EffectiveStride(format, width, stride).value > buffer.length ==>
      r == Creation(w, Err(TypeError("buffer is not long enough")), None)
    ensures r.call.Some? <==>
      && buffer.writable && width > 0 && height > 0
      && EffectiveStride(format, width, stride).Some?
      && height * EffectiveStride(format, width, stride).value <= buffer.length
    ensures r.call.Some? ==>
      && r.call.value == DataCall(format, width, height, EffectiveStride(format, width, stride).value)
      && Wrapped(r.world, r.result) == FromSurface(build, w, created, Some(buffer.obj), allocOk)
  {
    if !buffer.writable then Creation(w, Err(NotWritableBuffer), None)
    else if width <= 0 then Creation(w, Err(ValueError("width must be positive")), None)
    else if height <= 0 then Creation(w, Err(ValueError("height must be positive")), None)
    else
      match EffectiveStride(format, width, stride)
      case None => Creation(w, Err(CairoError("Unknown format")), None)
      case Some(st) =>
        if height * st > buffer.length then Creation(w, Err(TypeError("buffer is not long enough")), None)
        else
          var wrapped := FromSurface(build, w, created, Some(buffer.obj), allocOk);
          Creation(wrapped.world, wrapped.result, Some(DataCall(format, width, height, st)))
  }

  /**
   * A 10x10 ARGB32 image with the stride left out needs 400 bytes: a 399-byte
   * buffer is refused before cairo is called, a 400-byte one reaches cairo
   * with stride 40, and a healthy result keeps the buffer alive as `base`.
   */
  lemma CreateForDataBoundary(build: Build, w: World, obj: ObjId, created: NativeSurface, allocOk: bool)
    ensures CreateForData(build, w, BufferArg(obj, true, 399), ARGB32, 10, 10, -1, created, allocOk)
         == Creation(w, Err(TypeError("buffer is not long enough")), None)
    ensures var r := CreateForData(build, w, BufferArg(obj, true, 400), ARGB32, 10, 10, -1, created, allocOk);
            && r.call == Some(DataCall(ARGB32, 10, 10, 40))
            && (created.status == Success && created.stype == Image && allocOk ==>
                  r.result.Ok? && r.result.value.base == Some(obj) && r.world.refs == w.refs + multiset{obj})
  {
  }

  /** An explicit stride skips the format table: even an unknown format reaches cairo. */
  lemma ExplicitStrideSkipsFormatCheck(build: Build, w: World, buffer: BufferArg, code: int, width: int,
                                       height: int, stride: int, created: NativeSurface, allocOk: bool)
    requires buffer.writable && width > 0 && height > 0 && stride >= 0 && height * stride <= buffer.length
    ensures CreateForData(build, w, buffer, UnknownFormat(code), width, height, stride, created, allocOk).call
         == Some(DataCall(UnknownFormat(code), width, height, stride))
  {
  }

  // ---------------------------------------------------------------------------
  // Filename or stream: PDF/PS/SVG constructors and create_from_png
  // ---------------------------------------------------------------------------

  /** The first argument: a `str`/`unicode` path, or any other object with or without callable methods. */
  datatype FileArg =
    | PathArg(path: string)
    | ObjectArg(obj: ObjId, callableWrite: bool, callableRead: bool)

  /** What cairo was asked to write to or read from. */
  datatype Target = FileTarget(path: string) | StreamTarget(obj: ObjId)

  datatype DocKind = PDF | PS | SVG

  datatype Opened = Opened(world: World, result: Result<Wrapper, Error>, target: Option<Target>)

  function DocumentCompiled(build: Build, kind: DocKind): bool {
    match kind
    case PDF => build.hasPdf
    case PS => build.hasPs
    case SVG => build.hasSvg
  }

  function DocumentClassName(kind: DocKind): string {
    match kind
    case PDF => "PDFSurface"
    case PS => "PSSurface"
    case SVG => "SVGSurface"
  }

  function DocumentTypeErrorMessage(kind: DocKind): string {
    DocumentClassName(kind) + " argument 1 must be a filename (str), file object, or an object "
    + "that has a \"write\" method (like StringIO)"
  }

  const PngTypeErrorMessage: string :=
    "ImageSurface.create_from_png argument must be a filename (str), file object, "
    + "or an object that has a \"read\" method (like StringIO)"

  /**
   * `pdf_surface_new`, `ps_surface_new` and `svg_surface_new` (each exists
   * only when its backend is compiled in). `created` is what cairo returns.
   */
  function DocumentSurfaceNew(build: Build, w: World, kind: DocKind, file: FileArg,
                              created: NativeSurface, allocOk: bool): (r: Opened)
    requires DocumentCompiled(build, kind)
    ensures file.PathArg? ==>
      && r.target == Some(FileTarget(file.path))
      && Wrapped(r.world, r.result) == FromSurface(build, w, created, None, allocOk)
    ensures file.ObjectArg? && !file.callableWrite ==>
      r == Opened(w, Err(TypeError(DocumentTypeErrorMessage(kind))), None)
    ensures file.ObjectArg? && file.callableWrite ==>
      && r.target == Some(StreamTarget(file.obj))
      && Wrapped(r.world, r.result) == FromSurface(build, w, created, Some(file.obj), allocOk)
  {
    match file
    case PathArg(path) =>
      var wrapped := FromSurface(build, w, created, None, allocOk);
      Opened(wrapped.world, wrapped.result, Some(FileTarget(path)))
    case ObjectArg(obj, callableWrite, _) =>
      if !callableWrite then Opened(w, Err(TypeError(DocumentTypeErrorMessage(kind))), None)
      else
        var wrapped := FromSurface(build, w, created, Some(obj), allocOk);
        Opened(wrapped.world, wrapped.result, Some(StreamTarget(obj)))
  }

  /** `image_surface_create_from_png`: the stream is read at once, so it is never kept as `base`. */
  function CreateFromPng(build: Build, w: World, file: FileArg, created: NativeSurface, allocOk: bool): (r: Opened)
    ensures file.PathArg? ==> r.target == Some(FileTarget(file.path))
    ensures file.ObjectArg? && !file.callableRead ==> r == Opened(w, Err(TypeError(PngTypeErrorMessage)), None)
    ensures file.ObjectArg? && file.callableRead ==> r.target == Some(StreamTarget(file.obj))
    ensures r.target.Some? ==> Wrapped(r.world, r.result) == FromSurface(build, w, created, None, allocOk)
  {
    match file
    case PathArg(path) =>
      var wrapped := FromSurface(build, w, created, None, allocOk);
      Opened(wrapped.world, wrapped.result, Some(FileTarget(path)))
    case ObjectArg(obj, _, callableRead) =>
      if !callableRead then Opened(w, Err(TypeError(PngTypeErrorMessage)), None)
      else
        var wrapped := FromSurface(build, w, created, None, allocOk);
        Opened(wrapped.world, wrapped.result, Some(StreamTarget(obj)))
  }

  /**
   * A document surface writing to a stream keeps the stream alive for its
   * whole life: the wrapper holds one extra reference on the stream object
   * until it is released (`Finish` drops that reference too). Path targets
   * hold no reference.
   */
  lemma StreamKeptAliveUntilRelease(build: Build, w: World, kind: DocKind, file: FileArg,
                                    created: NativeSurface, allocOk: bool)
    requires DocumentCompiled(build, kind)
    ensures var r := DocumentSurfaceNew(build, w, kind, file, created, allocOk);
            r.result.Ok? && file.ObjectArg? ==>
              && r.world.refs == w.refs + multiset{file.obj}
              && Dealloc(r.world, r.result.value).world.refs == w.refs
    ensures var r := DocumentSurfaceNew(build, w, kind, file, created, allocOk);
            r.result.Ok? && file.PathArg? ==> r.world.refs == w.refs && r.result.value.base.None?
  {
    var r := DocumentSurfaceNew(build, w, kind, file, created, allocOk);
    if r.result.Ok? && file.ObjectArg? {
      assert w.refs + multiset{file.obj} - multiset{file.obj} == w.refs;
    }
    if r.result.Ok? && file.PathArg? {
      assert w.refs + multiset{} == w.refs;
    }
  }
}
