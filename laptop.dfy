/**
 * One catalog entry: a laptop's specification sheet with the fifteen
 * columns the grid shows. Every field is `None` when the record was built
 * from a line too short to supply it (JavaScript leaves it `undefined`).
 */
module Laptop {
  import opened Wrappers

  /** The column accessors, in the order the grid and the text file use. */
  datatype Field =
    | Producent | ScreenDiagonal | ScreenResolution | ScreenSurfaceType
    | IsTouchScreen | CPUName | CPUCores | CPUTiming | RAMSize | DiskSize
    | DiskType | GPUName | GPUMemory | OSName | PhysicalDriveType

  const FieldCount: nat := 15

  /** The fifteen fields in column order. */
  const FieldOrder: seq<Field> := [
    Producent, ScreenDiagonal, ScreenResolution, ScreenSurfaceType,
    IsTouchScreen, CPUName, CPUCores, CPUTiming, RAMSize, DiskSize,
    DiskType, GPUName, GPUMemory, OSName, PhysicalDriveType]

  /** The position of a field in the column order. */
  function Position(f: Field): (k: nat)
    ensures k < FieldCount && |FieldOrder| == FieldCount && FieldOrder[k] == f
  {
    match f
    case Producent => 0
    case ScreenDiagonal => 1
    case ScreenResolution => 2
    case ScreenSurfaceType => 3
    case IsTouchScreen => 4
    case CPUName => 5
    case CPUCores => 6
    case CPUTiming => 7
    case RAMSize => 8
    case DiskSize => 9
    case DiskType => 10
    case GPUName => 11
    case GPUMemory => 12
    case OSName => 13
    case PhysicalDriveType => 14
  }

  datatype Record = Record(
    producent: Option<string>,
    screenDiagonal: Option<string>,
    screenResolution: Option<string>,
    screenSurfaceType: Option<string>,
    isTouchScreen: Option<string>,
    CPUName: Option<string>,
    CPUCores: Option<string>,
    CPUTiming: Option<string>,
    RAMSize: Option<string>,
    diskSize: Option<string>,
    diskType: Option<string>,
    GPUName: Option<string>,
    GPUMemory: Option<string>,
    OSName: Option<string>,
    physicalDriveType: Option<string>)

  /**
   * `row[columnId]`: the value stored under a column accessor, which is the
   * value at that column's position in column order.
   */
  function Get(r: Record, f: Field): (v: Option<string>)
    ensures v == Values(r)[Position(f)]
  {
    match f
    case Producent => r.producent
    case ScreenDiagonal => r.screenDiagonal
    case ScreenResolution => r.screenResolution
    case ScreenSurfaceType => r.screenSurfaceType
    case IsTouchScreen => r.isTouchScreen
    case CPUName => r.CPUName
    case CPUCores => r.CPUCores
    case CPUTiming => r.CPUTiming
    case RAMSize => r.RAMSize
    case DiskSize => r.diskSize
    case DiskType => r.diskType
    case GPUName => r.GPUName
    case GPUMemory => r.GPUMemory
    case OSName => r.OSName
    case PhysicalDriveType => r.physicalDriveType
  }

  /**
   * `{ ...row, [columnId]: value }`: the record with one column replaced.
   * The value is stored as given, `undefined` included.
   */
  function With(r: Record, f: Field, v: Option<string>): (r': Record)
    ensures Get(r', f) == v
    ensures forall g :: g != f ==> Get(r', g) == Get(r, g)
  {
    match f
    case Producent => r.(producent := v)
    case ScreenDiagonal => r.(screenDiagonal := v)
    case ScreenResolution => r.(screenResolution := v)
    case ScreenSurfaceType => r.(screenSurfaceType := v)
    case IsTouchScreen => r.(isTouchScreen := v)
    case CPUName => r.(CPUName := v)
    case CPUCores => r.(CPUCores := v)
    case CPUTiming => r.(CPUTiming := v)
    case RAMSize => r.(RAMSize := v)
    case DiskSize => r.(diskSize := v)
    case DiskType => r.(diskType := v)
    case GPUName => r.(GPUName := v)
    case GPUMemory => r.(GPUMemory := v)
    case OSName => r.(OSName := v)
    case PhysicalDriveType => r.(physicalDriveType := v)
  }

  /** JavaScript's `pieces[k]`: `undefined` past the end. */
  function At(pieces: seq<string>, k: nat): (v: Option<string>)
    ensures v.Some? <==> k < |pieces|
    ensures v.Some? ==> v.value == pieces[k]
  {
    if k < |pieces| then Some(pieces[k]) else None
  }

  /**
   * The record whose k-th column (k = 0..14) is the k-th piece; pieces
   * past the fifteenth are ignored and missing ones stay `undefined`.
   */
  function FromPieces(pieces: seq<string>): (r: Record)
    ensures forall f :: Get(r, f) == At(pieces, Position(f))
  {
    Record(
      At(pieces, 0), At(pieces, 1), At(pieces, 2), At(pieces, 3),
      At(pieces, 4), At(pieces, 5), At(pieces, 6), At(pieces, 7),
      At(pieces, 8), At(pieces, 9), At(pieces, 10), At(pieces, 11),
      At(pieces, 12), At(pieces, 13), At(pieces, 14))
  }

  /** The fifteen column values in column order. */
  function Values(r: Record): (vs: seq<Option<string>>)
    ensures |vs| == FieldCount
  {
    [r.producent, r.screenDiagonal, r.screenResolution, r.screenSurfaceType,
     r.isTouchScreen, r.CPUName, r.CPUCores, r.CPUTiming, r.RAMSize,
     r.diskSize, r.diskType, r.GPUName, r.GPUMemory, r.OSName,
     r.physicalDriveType]
  }

  /** Two records are equal exactly when every column agrees. */
  lemma Extensionality(r: Record, s: Record)
    requires forall f :: Get(r, f) == Get(s, f)
    ensures r == s
  {
    assert Get(r, Producent) == Get(s, Producent);
    assert Get(r, ScreenDiagonal) == Get(s, ScreenDiagonal);
    assert Get(r, ScreenResolution) == Get(s, ScreenResolution);
    assert Get(r, ScreenSurfaceType) == Get(s, ScreenSurfaceType);
    assert Get(r, IsTouchScreen) == Get(s, IsTouchScreen);
    assert Get(r, CPUName) == Get(s, CPUName);
    assert Get(r, CPUCores) == Get(s, CPUCores);
    assert Get(r, CPUTiming) == Get(s, CPUTiming);
    assert Get(r, RAMSize) == Get(s, RAMSize);
    assert Get(r, DiskSize) == Get(s, DiskSize);
    assert Get(r, DiskType) == Get(s, DiskType);
    assert Get(r, GPUName) == Get(s, GPUName);
    assert Get(r, GPUMemory) == Get(s, GPUMemory);
    assert Get(r, OSName) == Get(s, OSName);
    assert Get(r, PhysicalDriveType) == Get(s, PhysicalDriveType);
  }

  /** Every column holds a value (none is `undefined`). */
  predicate Defined(r: Record)
  {
    forall f :: Get(r, f).Some?
  }
}
