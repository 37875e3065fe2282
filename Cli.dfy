/**
 * The `imohash_rs` command: `format_hash`, the choice between interactive
 * mode and file-path mode, the jobs file mode submits and the lines it
 * prints. Argument parsing, printing and the thread pool are outside the
 * model: `main` starts from already parsed arguments, and the text it would
 * print and the work it would start are returned as values.
 */
module Cli {
  import opened Wrappers
  import opened Bytes
  import opened Numerals
  import opened Errors
  import HashValue
  import opened Imohash
  import Hex
  import PyRepr

  /** The Python value `format_hash` returns. */
  datatype Formatted = PyInt(n: nat) | PyBytes(bytes: seq<Byte>) | PyText(text: string)

  /** The hash a formatted value stands for, if it stands for one. */
  function Unformat(f: Formatted): Option<HashValue.Hash> {
    match f
    case PyInt(n) => if n < U128_BOUND then Some(HashValue.Hash(n)) else None
    case PyBytes(b) => FromDigest(b)
    case PyText(t) =>
      match Hex.Decode(t)
      case Some(b) => FromDigest(b)
      case None => None
  }

  function FromDigest(b: seq<Byte>): Option<HashValue.Hash> {
    if |b| == HashValue.DIGEST_SIZE then Pow256Sixteen(); Some(HashValue.Hash(FromLe(b))) else None
  }

  /** `format_hash(hash_, format_)`: `'int'` and `'bytes'` pick those forms, any other format the hex digest. */
  function FormatHash(h: HashValue.Hash, format: string): (r: Formatted)
    ensures format == "int" ==> r == PyInt(HashValue.Int(h))
    ensures format == "bytes" ==> r == PyBytes(HashValue.BytesOf(h))
    ensures format != "int" && format != "bytes" ==> r == PyText(HashValue.HexDigest(h))
    ensures Unformat(r) == Some(h)
  {
    if format == "int" then PyInt(HashValue.Int(h))
    else if format == "bytes" then PyBytes(HashValue.BytesOf(h))
    else PyText(HashValue.HexDigest(h))
  }

  /** Python's `str()` of a formatted value, as `print` and `{!s}` use it. */
  function PyStr(f: Formatted): string {
    match f
    case PyInt(n) => Decimal(n)
    case PyBytes(b) => PyRepr.BytesRepr(b)
    case PyText(t) => t
  }

  /**
   * Reads the text `PyStr` gives for a value formatted with `format` from the
   * front of `s`: the value and what follows it.
   */
  function ReadFormatted(s: string, format: string): (r: Option<(Formatted, string)>)
    ensures r.Some? ==> |r.value.1| < |s|
  {
    if format == "int" then
      match ParseLeading(s, 10)
      case Some((n, rest)) => Some((PyInt(n), rest))
      case None => None
    else if format == "bytes" then
      match PyRepr.ReadBytesLiteral(s)
      case Some((b, rest)) => Some((PyBytes(b), rest))
      case None => None
    else if |s| >= 2 * HashValue.DIGEST_SIZE then Some((PyText(s[..2 * HashValue.DIGEST_SIZE]), s[2 * HashValue.DIGEST_SIZE..]))
    else None
  }

  lemma ReadFormattedStr(h: HashValue.Hash, format: string, t: string)
    requires t == [] || !IsDigit(t[0], 10)
    ensures ReadFormatted(PyStr(FormatHash(h, format)) + t, format) == Some((FormatHash(h, format), t))
  {
    var f := FormatHash(h, format);
    if format == "int" {
      ParseLeadingRender(h.value, 10, t);
    } else if format == "bytes" {
      PyRepr.ReadBytesLiteralRepr(HashValue.BytesOf(h), t);
    } else {
      var s := HashValue.HexDigest(h) + t;
      assert s[..2 * HashValue.DIGEST_SIZE] == HashValue.HexDigest(h) && s[2 * HashValue.DIGEST_SIZE..] == t;
    }
  }

  /** One answer of the interactive loop: the formatted hash of the line's bytes. */
  function InteractiveReply(im: Imohash, data: seq<Byte>, format: string, sum: (Hasher, seq<Byte>) -> U128): (r: string)
    ensures ReadFormatted(r, format) == Some((FormatHash(Get(im, data, sum), format), ""))
    ensures Unformat(FormatHash(Get(im, data, sum), format)) == Some(Get(im, data, sum))
  {
    var f := FormatHash(Get(im, data, sum), format);
    ReadFormattedStr(Get(im, data, sum), format, "");
    assert PyStr(f) + "" == PyStr(f);
    PyStr(f)
  }

  /** The prompt `input('> ')` writes to stdout before each read. */
  const PROMPT: string := "> "

  /**
   * Everything the interactive loop writes to stdout: a prompt before each
   * read, each answer on its own line after the read it answers, and a last
   * prompt before the read that meets the end of the input.
   */
  function Transcript(replies: seq<string>): string {
    if replies == [] then PROMPT
    else Transcript(replies[..|replies| - 1]) + replies[|replies| - 1] + "\n" + PROMPT
  }

  /** The transcript seen from its front: the first prompt, the first answer, then the rest. */
  lemma {:induction false} TranscriptCons(x: string, replies: seq<string>)
    ensures Transcript([x] + replies) == PROMPT + x + "\n" + Transcript(replies)
    decreases |replies|
  {
    if replies == [] {
      TranscriptSnoc([], x);
      assert [] + [x] == [x] + replies;
    } else {
      var n := |replies|;
      var init := replies[..n - 1];
      TranscriptCons(x, init);
      TranscriptSnoc([x] + init, replies[n - 1]);
      TranscriptSnoc(init, replies[n - 1]);
      assert ([x] + init) + [replies[n - 1]] == [x] + replies;
      assert init + [replies[n - 1]] == replies;
    }
  }

  /** Reads one prompt and the answered line after it: the value and what follows the newline. */
  function ReadAnswer(s: string, format: string): (r: Option<(Formatted, string)>)
    ensures r.Some? ==> |r.value.1| < |s|
  {
    if |s| >= |PROMPT| && s[..|PROMPT|] == PROMPT then
      match ReadFormatted(s[|PROMPT|..], format)
      case Some((f, rest)) => if rest != [] && rest[0] == '\n' then Some((f, rest[1..])) else None
      case None => None
    else None
  }

  /**
   * Reads an interactive session's stdout back into the values it printed,
   * one per answered line, for values formatted with `format`.
   */
  function ReadTranscript(s: string, format: string): Option<seq<Formatted>>
    decreases |s|
  {
    if s == PROMPT then Some([])
    else
      match ReadAnswer(s, format)
      case Some((f, rest)) =>
        (match ReadTranscript(rest, format)
         case Some(fs) => Some([f] + fs)
         case None => None)
      case None => None
  }

  /** Answers for the hashes `hs`, in order. */
  function Replies(hs: seq<HashValue.Hash>, format: string): (r: seq<string>)
    ensures |r| == |hs|
    ensures forall i :: 0 <= i < |hs| ==> r[i] == PyStr(FormatHash(hs[i], format))
  {
    if hs == [] then [] else [PyStr(FormatHash(hs[0], format))] + Replies(hs[1..], format)
  }

  function Formats(hs: seq<HashValue.Hash>, format: string): (r: seq<Formatted>)
    ensures |r| == |hs|
    ensures forall i :: 0 <= i < |hs| ==> r[i] == FormatHash(hs[i], format)
  {
    if hs == [] then [] else [FormatHash(hs[0], format)] + Formats(hs[1..], format)
  }

  /** One answered line at the front of a transcript. */
  lemma ReadAnswerLine(h: HashValue.Hash, format: string, rest: string)
    ensures ReadAnswer(PROMPT + PyStr(FormatHash(h, format)) + "\n" + rest, format) == Some((FormatHash(h, format), rest))
  {
    ReadFormattedStr(h, format, "\n" + rest);
    ReadAnswerOf(PyStr(FormatHash(h, format)), FormatHash(h, format), rest, format);
  }

  lemma ReadAnswerOf(x: string, f: Formatted, rest: string, format: string)
    requires ReadFormatted(x + ("\n" + rest), format) == Some((f, "\n" + rest))
    ensures ReadAnswer(PROMPT + x + "\n" + rest, format) == Some((f, rest))
  {
    var s := PROMPT + x + "\n" + rest;
    assert s[..|PROMPT|] == PROMPT;
    assert s[|PROMPT|..] == x + ("\n" + rest);
    assert ("\n" + rest)[1..] == rest;
  }

  lemma ReadTranscriptCons(s: string, f: Formatted, rest: string, format: string)
    requires s != PROMPT && ReadAnswer(s, format) == Some((f, rest))
    requires ReadTranscript(rest, format).Some?
    ensures ReadTranscript(s, format) == Some([f] + ReadTranscript(rest, format).value)
  {
  }

  /** The session's stdout loses nothing: it reads back to the formatted hashes, in order. */
  lemma {:induction false} ReadTranscriptRoundTrip(hs: seq<HashValue.Hash>, format: string)
    ensures ReadTranscript(Transcript(Replies(hs, format)), format) == Some(Formats(hs, format))
    decreases |hs|
  {
    if hs != [] {
      var f := FormatHash(hs[0], format);
      var tail := Replies(hs[1..], format);
      var rest := Transcript(tail);
      assert Replies(hs, format) == [PyStr(f)] + tail;
      TranscriptCons(PyStr(f), tail);
      var s := PROMPT + PyStr(f) + "\n" + rest;
      ReadAnswerLine(hs[0], format, rest);
      ReadTranscriptRoundTrip(hs[1..], format);
      assert |s| > |PROMPT|;
      ReadTranscriptCons(s, f, rest, format);
      assert Formats(hs, format) == [f] + Formats(hs[1..], format);
    }
  }

  /** Appending an answer extends the transcript by that line and the next prompt. */
  lemma TranscriptSnoc(replies: seq<string>, x: string)
    ensures Transcript(replies + [x]) == Transcript(replies) + x + "\n" + PROMPT
  {
    assert (replies + [x])[..|replies|] == replies;
  }

  /** The hashes the interactive loop computes, one per line. */
  function LineHashes(im: Imohash, lines: seq<seq<Byte>>, sum: (Hasher, seq<Byte>) -> U128): (hs: seq<HashValue.Hash>)
    ensures |hs| == |lines|
    ensures forall i :: 0 <= i < |lines| ==> hs[i] == Get(im, lines[i], sum)
  {
    if lines == [] then [] else [Get(im, lines[0], sum)] + LineHashes(im, lines[1..], sum)
  }

  /** The answers of the interactive loop are the answers for the lines' hashes. */
  lemma RepliesOfLines(im: Imohash, format: string, lines: seq<seq<Byte>>, sum: (Hasher, seq<Byte>) -> U128, replies: seq<string>)
    requires |replies| == |lines|
    requires forall i :: 0 <= i < |lines| ==> replies[i] == InteractiveReply(im, lines[i], format, sum)
    ensures replies == Replies(LineHashes(im, lines, sum), format)
  {
    var hs := LineHashes(im, lines, sum);
    forall i | 0 <= i < |lines|
      ensures replies[i] == Replies(hs, format)[i]
    {
      assert InteractiveReply(im, lines[i], format, sum) == PyStr(FormatHash(hs[i], format));
    }
  }

  /**
   * `InteractiveApplication.run`: one answer per input line, in order, until
   * the input ends. `lines` holds the UTF-8 bytes of the lines read; `output`
   * is what the loop writes to stdout, prompts included.
   */
  method RunInteractive(im: Imohash, format: string, lines: seq<seq<Byte>>, sum: (Hasher, seq<Byte>) -> U128)
    returns (replies: seq<string>, output: string)
    ensures |replies| == |lines|
    ensures forall i :: 0 <= i < |lines| ==> replies[i] == InteractiveReply(im, lines[i], format, sum)
    ensures output == Transcript(replies)
    ensures ReadTranscript(output, format) == Some(Formats(LineHashes(im, lines, sum), format))
  {
    replies := [];
    output := PROMPT;
    var i := 0;
    while i < |lines|
      invariant 0 <= i <= |lines|
      invariant |replies| == i
      invariant forall k :: 0 <= k < i ==> replies[k] == InteractiveReply(im, lines[k], format, sum)
      invariant output == Transcript(replies)
    {
      var reply := InteractiveReply(im, lines[i], format, sum);
      TranscriptSnoc(replies, reply);
      replies := replies + [reply];
      output := output + reply + "\n" + PROMPT;
      i := i + 1;
    }
    RepliesOfLines(im, format, lines, sum, replies);
    ReadTranscriptRoundTrip(LineHashes(im, lines, sum), format);
  }

  const SEPARATOR: string := "  "

  /** The line `FilesApplication.run` prints: the formatted hash, two spaces, the path. */
  function FileLine(f: Formatted, path: string): string {
    PyStr(f) + SEPARATOR + path
  }

  /** Reads a printed line back into the formatted hash and the path. */
  function ReadFileLine(line: string, format: string): Option<(Formatted, string)> {
    match ReadFormatted(line, format)
    case Some((f, rest)) =>
      if |rest| >= |SEPARATOR| && rest[..|SEPARATOR|] == SEPARATOR then Some((f, rest[|SEPARATOR|..])) else None
    case None => None
  }

  /** The printed line can be split back into the hash and the path, whatever the path holds. */
  lemma ReadFileLineRoundTrip(h: HashValue.Hash, format: string, path: string)
    ensures ReadFileLine(FileLine(FormatHash(h, format), path), format) == Some((FormatHash(h, format), path))
  {
    var f := FormatHash(h, format);
    assert FileLine(f, path) == PyStr(f) + (SEPARATOR + path);
    ReadFormattedStr(h, format, SEPARATOR + path);
  }

  /** One `pool.submit(application.run, path=..., format_=...)`. */
  datatype FileJob = FileJob(imohash: Imohash, path: string, format: string)

  /** What a job leaves behind: a printed line, or an exception kept in its future. */
  datatype JobResult = Printed(line: string) | Raised(error: PyError)

  /** `FilesApplication.run(path, format_)`, with the file system and the crate as parameters. */
  function RunFileJob(
    job: FileJob, metadata: Result<FileType, IoError>,
    sumFile: (Hasher, string) -> Result<U128, IoError>): (r: JobResult)
    ensures var got := GetForFile(job.imohash, job.path, metadata, sumFile);
      && (r.Printed? <==> got.Success?)
      && (r.Raised? ==> r.error == got.error)
      && (r.Printed? ==>
            ReadFileLine(r.line, job.format) == Some((FormatHash(got.value, job.format), job.path))
            && Unformat(FormatHash(got.value, job.format)) == Some(got.value))
  {
    match GetForFile(job.imohash, job.path, metadata, sumFile)
    case Success(h) =>
      ReadFileLineRoundTrip(h, job.format, job.path);
      Printed(FileLine(FormatHash(h, job.format), job.path))
    case Failure(e) => Raised(e)
  }

  /**
   * The parsed command line. An absent `-t`, `-s` or `-f` is `None`;
   * `interactive` is whether `-i` was given.
   */
  datatype Args = Args(
    sampleThreshold: Option<int>, sampleSize: Option<int>, format: Option<string>,
    interactive: bool, filePaths: seq<string>)

  function Threshold(args: Args): (t: int)
    ensures args.sampleThreshold.None? ==> t == 131072
    ensures args.sampleThreshold.Some? ==> t == args.sampleThreshold.value
  {
    if args.sampleThreshold.Some? then args.sampleThreshold.value else SAMPLE_THRESHOLD
  }

  function Size(args: Args): (s: int)
    ensures args.sampleSize.None? ==> s == 16384
    ensures args.sampleSize.Some? ==> s == args.sampleSize.value
  {
    if args.sampleSize.Some? then args.sampleSize.value else SAMPLE_SIZE
  }

  function Format(args: Args): (f: string)
    ensures args.format.None? ==> f == "hex"
    ensures args.format.Some? ==> f == args.format.value
  {
    if args.format.Some? then args.format.value else "hex"
  }

  datatype Mode = InteractiveMode | FilesMode | Conflict

  /**
   * The mode decision of `main`: with neither `-i` nor a path, interactive
   * mode; `-i` together with paths is an error; otherwise whichever was given.
   */
  function SelectMode(interactive: bool, filePaths: seq<string>): (m: Mode)
    ensures m == InteractiveMode <==> filePaths == []
    ensures m == Conflict <==> interactive && filePaths != []
    ensures m == FilesMode <==> !interactive && filePaths != []
  {
    var given := filePaths != [];
    if !given && !interactive then InteractiveMode
    else if !(interactive != given) then Conflict
    else if interactive then InteractiveMode
    else FilesMode
  }

  const CONFLICT_MESSAGE: string :=
    "Error: exactly at least one argument `--interactive/-i` or `[file_path ...]` is required"

  /** What `main` started: nothing, the interactive loop, or one job per path. */
  datatype Action = NoAction | InteractiveLoop(imohash: Imohash, format: string) | SubmitFiles(jobs: seq<FileJob>)

  /** `main`'s exit code, the lines it printed itself, and what it started. */
  datatype Run = Run(exitCode: int, stdout: seq<string>, stderr: seq<string>, action: Action)

  /**
   * `main(argument_list)` after parsing. The hasher is built before the mode
   * is decided, so an argument that does not fit a `u32` escapes as an
   * exception whatever the mode.
   */
  method RunCommand(args: Args) returns (r: Result<Run, PyError>)
    ensures r.Failure? <==> New(Some(Threshold(args)), Some(Size(args))).Failure?
    ensures r.Failure? ==> r.error == New(Some(Threshold(args)), Some(Size(args))).error
    ensures r.Success? ==>
      var im := New(Some(Threshold(args)), Some(Size(args))).value;
      var mode := SelectMode(args.interactive, args.filePaths);
      && (mode == Conflict ==> r.value == Run(1, [], [CONFLICT_MESSAGE], NoAction))
      && (mode == InteractiveMode ==>
            r.value == Run(0, ["Interactive mode (format: " + Format(args) + ")"], [], InteractiveLoop(im, Format(args))))
      && (mode == FilesMode ==>
            && r.value.exitCode == 0 && r.value.stdout == [] && r.value.stderr == []
            && r.value.action.SubmitFiles?
            && |r.value.action.jobs| == |args.filePaths|
            && forall i :: 0 <= i < |args.filePaths| ==>
                 r.value.action.jobs[i] == FileJob(im, args.filePaths[i], Format(args)))
  {
    var format := Format(args);
    var created := New(Some(Threshold(args)), Some(Size(args)));
    if created.Failure? {
      return Failure(created.error);
    }
    var im := created.value;
    var mode := SelectMode(args.interactive, args.filePaths);
    if mode == Conflict {
      return Success(Run(1, [], [CONFLICT_MESSAGE], NoAction));
    }
    if mode == InteractiveMode {
      return Success(Run(0, ["Interactive mode (format: " + format + ")"], [], InteractiveLoop(im, format)));
    }
    var jobs: seq<FileJob> := [];
    for i := 0 to |args.filePaths|
      invariant |jobs| == i
      invariant forall k :: 0 <= k < i ==> jobs[k] == FileJob(im, args.filePaths[k], format)
    {
      jobs := jobs + [FileJob(im, args.filePaths[i], format)];
    }
    return Success(Run(0, [], [], SubmitFiles(jobs)));
  }
}
