/**
 * The `Imohash` class of the binding: a hasher configured with a sample
 * threshold and a sample size, both `u32`, defaulting to 128 KiB and 16 KiB.
 * The fingerprint itself is computed by the external `imohash` crate, which
 * is not part of this model: its `sum` and `sum_file` are parameters here.
 */
module Imohash {
  import opened Wrappers
  import opened Bytes
  import opened Numerals
  import opened Errors
  import opened HashValue
  import RustDebug

  const SAMPLE_THRESHOLD: U32 := 128 * 1024
  const SAMPLE_SIZE: U32 := 16 * 1024

  /** The crate's `imohash::Hasher`; its two settings are private to it. */
  datatype Hasher = Hasher(sampleSize: U32, sampleThreshold: U32)

  /**
   * The binding's object: the crate's hasher, plus copies of its two settings
   * kept only so that `__repr__` can show them.
   */
  datatype Imohash = Imohash(instance: Hasher, sampleSize: U32, sampleThreshold: U32)

  /** The copies agree with the settings the inner hasher was built with. */
  predicate Valid(im: Imohash) {
    im.instance.sampleSize == im.sampleSize && im.instance.sampleThreshold == im.sampleThreshold
  }

  predicate FitsU32(x: Option<int>) {
    x.None? || 0 <= x.value < U32_BOUND
  }

  /** A Python argument for an `Option<u32>` parameter: `None` stays absent, an `int` must fit. */
  function ExtractU32(x: Option<int>, argument: string): (r: Result<Option<U32>, PyError>)
    ensures r.Success? <==> FitsU32(x)
    ensures r.Success? ==> r.value == x
    ensures r.Failure? ==> r.error == OverflowError(argument)
  {
    match x
    case None => Success(None)
    case Some(v) => if 0 <= v < U32_BOUND then Success(Some(v)) else Failure(OverflowError(argument))
  }

  /** `Imohash(sample_threshold=None, sample_size=None)` called from Python. */
  function New(sampleThreshold: Option<int>, sampleSize: Option<int>): (r: Result<Imohash, PyError>)
    ensures r.Success? <==> FitsU32(sampleThreshold) && FitsU32(sampleSize)
    ensures !FitsU32(sampleThreshold) ==> r == Failure(OverflowError("sample_threshold"))
    ensures FitsU32(sampleThreshold) && !FitsU32(sampleSize) ==> r == Failure(OverflowError("sample_size"))
    ensures r.Success? ==> Valid(r.value)
    ensures r.Success? && sampleThreshold.None? ==> r.value.sampleThreshold == 131072
    ensures r.Success? && sampleThreshold.Some? ==> r.value.sampleThreshold == sampleThreshold.value
    ensures r.Success? && sampleSize.None? ==> r.value.sampleSize == 16384
    ensures r.Success? && sampleSize.Some? ==> r.value.sampleSize == sampleSize.value
  {
    match (ExtractU32(sampleThreshold, "sample_threshold"), ExtractU32(sampleSize, "sample_size"))
    case (Failure(e), _) => Failure(e)
    case (_, Failure(e)) => Failure(e)
    case (Success(t), Success(s)) =>
      var threshold := if t.Some? then t.value else SAMPLE_THRESHOLD;
      var size := if s.Some? then s.value else SAMPLE_SIZE;
      Success(Imohash(Hasher(size, threshold), size, threshold))
  }

  /** Passing the default constants explicitly builds the same hasher as omitting them. */
  lemma ExplicitDefaults()
    ensures New(Some(SAMPLE_THRESHOLD), Some(SAMPLE_SIZE)) == New(None, None)
    ensures New(None, None).Success?
  {
  }

  /** `get(data)`: the crate's fingerprint of the bytes, computed with this object's settings. */
  function Get(im: Imohash, data: seq<Byte>, sum: (Hasher, seq<Byte>) -> U128): (r: Hash)
    ensures Valid(im) ==> r.value == sum(Hasher(im.sampleSize, im.sampleThreshold), data)
  {
    Hash(sum(im.instance, data))
  }

  /** What `fs::metadata` says a path is. It follows symbolic links. */
  datatype FileType = RegularFile | Directory | Symlink | OtherFileType

  const NOT_A_FILE: string := "Path is not a file: "

  /**
   * `get_for_file(path)`: `metadata` is what `fs::metadata(path)` returned and
   * `sumFile` stands for the crate's `sum_file`.
   */
  function GetForFile(
    im: Imohash, path: string, metadata: Result<FileType, IoError>,
    sumFile: (Hasher, string) -> Result<U128, IoError>): (r: Result<Hash, PyError>)
    ensures metadata.Failure? ==> r == Failure(OSError(metadata.error))
    ensures metadata.Success? && metadata.value != RegularFile ==>
      && r.Failure? && r.error.FileNotFoundError?
      && |r.error.message| > |NOT_A_FILE|
      && r.error.message[..|NOT_A_FILE|] == NOT_A_FILE
      && RustDebug.ReadQuoted(r.error.message[|NOT_A_FILE|..]) == Some((path, ""))
    ensures metadata == Success(RegularFile) ==>
      && (r.Success? <==> sumFile(im.instance, path).Success?)
      && (r.Success? ==> r.value.value == sumFile(im.instance, path).value)
      && (r.Failure? ==> r.error == PanicException(sumFile(im.instance, path).error))
  {
    match metadata
    case Failure(e) => Failure(OSError(e))
    case Success(fileType) =>
      if fileType != RegularFile || fileType == Symlink then
        var quoted := RustDebug.DebugStr(path);
        var message := NOT_A_FILE + quoted;
        assert message[..|NOT_A_FILE|] == NOT_A_FILE && message[|NOT_A_FILE|..] == quoted + "";
        RustDebug.ReadQuotedDebugStr(path, "");
        Failure(FileNotFoundError(message))
      else
        match sumFile(im.instance, path)
        case Success(v) => Success(Hash(v))
        case Failure(e) => Failure(PanicException(e))
  }

  /** Whatever the crate's `sum_file` would do, it is not reached unless the path is a regular file. */
  lemma GuardPrecedesHashing(
    im: Imohash, path: string, metadata: Result<FileType, IoError>,
    sumFile1: (Hasher, string) -> Result<U128, IoError>,
    sumFile2: (Hasher, string) -> Result<U128, IoError>)
    requires metadata != Success(RegularFile)
    ensures GetForFile(im, path, metadata, sumFile1) == GetForFile(im, path, metadata, sumFile2)
    ensures GetForFile(im, path, metadata, sumFile1).Failure?
  {
  }

  const REPR_SIZE: string := "Imohash(sample_size="
  const REPR_THRESHOLD: string := ", sample_threshold="

  /** `__repr__()`: the two stored settings in decimal, size first. */
  function Repr(im: Imohash): (r: string)
    ensures ReadRepr(r) == Some((im.sampleSize as nat, im.sampleThreshold as nat))
  {
    ReadReprText(im.sampleSize, im.sampleThreshold);
    REPR_SIZE + Decimal(im.sampleSize) + (REPR_THRESHOLD + Decimal(im.sampleThreshold) + ")")
  }

  lemma ReadReprText(size: nat, threshold: nat)
    ensures ReadRepr(REPR_SIZE + Decimal(size) + (REPR_THRESHOLD + Decimal(threshold) + ")")) == Some((size, threshold))
  {
    var tail := REPR_THRESHOLD + Decimal(threshold) + ")";
    var r := REPR_SIZE + Decimal(size) + tail;
    assert r[..|REPR_SIZE|] == REPR_SIZE;
    assert r[|REPR_SIZE|..] == Render(size, 10) + tail;
    ParseLeadingRender(size, 10, tail);
    ReadThresholdText(threshold);
  }

  lemma ReadThresholdText(threshold: nat)
    ensures ReadThreshold(REPR_THRESHOLD + Decimal(threshold) + ")") == Some(threshold)
  {
    var tail := REPR_THRESHOLD + Decimal(threshold) + ")";
    assert tail[..|REPR_THRESHOLD|] == REPR_THRESHOLD;
    assert tail[|REPR_THRESHOLD|..] == Render(threshold, 10) + ")";
    ParseLeadingRender(threshold, 10, ")");
  }

  /** Reads an `Imohash(sample_size=S, sample_threshold=T)` text back as `(S, T)`. */
  function ReadRepr(s: string): Option<(nat, nat)> {
    if |s| >= |REPR_SIZE| && s[..|REPR_SIZE|] == REPR_SIZE then
      match ParseLeading(s[|REPR_SIZE|..], 10)
      case Some((size, rest)) =>
        (match ReadThreshold(rest)
         case Some(threshold) => Some((size, threshold))
         case None => None)
      case None => None
    else None
  }

  /** Reads the `, sample_threshold=T)` end of the text. */
  function ReadThreshold(s: string): Option<nat> {
    if |s| >= |REPR_THRESHOLD| && s[..|REPR_THRESHOLD|] == REPR_THRESHOLD then
      match ParseLeading(s[|REPR_THRESHOLD|..], 10)
      case Some((threshold, last)) => if last == ")" then Some(threshold) else None
      case None => None
    else None
  }

  /** The representation of a constructed hasher reports the settings it hashes with. */
  lemma ReprReportsSettings(sampleThreshold: Option<int>, sampleSize: Option<int>)
    requires New(sampleThreshold, sampleSize).Success?
    ensures var im := New(sampleThreshold, sampleSize).value;
      ReadRepr(Repr(im)) == Some((im.instance.sampleSize as nat, im.instance.sampleThreshold as nat))
  {
  }
}
