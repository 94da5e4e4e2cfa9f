/** Exceptions as values, and the traceback-based error message that
    `proxiflow/utils/errors.py` builds when a cleaning step fails. */
module Errors {
  import opened Wrappers

  /** The Python exception kinds the modelled code raises, with `str(e)`. */
  datatype Error =
    | ValueError(msg: string)
    | TypeError(msg: string)
    | IndexError(msg: string)
    | FileNotFoundError(msg: string)
    | ColumnNotFoundError(msg: string)
    | Exception(msg: string)

  /** One traceback entry: the file the frame executes in and its line. */
  datatype Frame = Frame(filename: string, lineno: nat)

  /** An exception in flight: the error and its traceback, outermost frame
      first (the order `traceback.extract_tb` lists them in). */
  datatype Raised = Raised(error: Error, frames: seq<Frame>)

  function Digit(d: nat): (c: char)
    requires d < 10
    ensures '0' <= c <= '9'
  {
    "0123456789"[d]
  }

  /** Decimal rendering of a line number, as Python's `str(int)`. */
  function NatToString(n: nat): (s: string)
    ensures |s| > 0
    ensures forall k :: 0 <= k < |s| ==> '0' <= s[k] <= '9'
  {
    if n < 10 then [Digit(n)] else NatToString(n / 10) + [Digit(n % 10)]
  }

  /** Reads a string of decimal digits back as a number. */
  function ParseDecimal(s: string): nat
    requires forall k :: 0 <= k < |s| ==> '0' <= s[k] <= '9'
  {
    if |s| == 0 then 0
    else 10 * ParseDecimal(s[..|s| - 1]) + ((s[|s| - 1] as int) - ('0' as int))
  }

  /** The rendered line number reads back as the same number. */
  lemma {:induction false} NatToStringRoundTrip(n: nat)
    ensures ParseDecimal(NatToString(n)) == n
  {
    var s := NatToString(n);
    if n >= 10 {
      NatToStringRoundTrip(n / 10);
      assert s[..|s| - 1] == NatToString(n / 10);
    }
  }

  /** `os.path.basename`: the part of a path after its last '/'. */
  function Basename(p: string): (b: string)
    ensures '/' !in b
    ensures |b| <= |p| && b == p[|p| - |b|..]
    ensures |b| < |p| ==> p[|p| - |b| - 1] == '/'
  {
    if |p| == 0 || p[|p| - 1] == '/' then ""
    else Basename(p[..|p| - 1]) + [p[|p| - 1]]
  }

  /** Scans `frames` from the innermost end and returns the index of the first
      frame (that is, the last in traceback order) whose absolute path is
      `target`. */
  function ScanReversed(frames: seq<Frame>, target: string, absPath: string -> string): (k: Option<nat>)
    ensures k.Some? ==> k.value < |frames| && absPath(frames[k.value].filename) == target
    ensures k.Some? ==> forall m :: k.value < m < |frames| ==> absPath(frames[m].filename) != target
    ensures k.None? <==> forall m :: 0 <= m < |frames| ==> absPath(frames[m].filename) != target
  {
    if |frames| == 0 then None
    else if absPath(frames[|frames| - 1].filename) == target then Some(|frames| - 1)
    else ScanReversed(frames[..|frames| - 1], target, absPath)
  }

  /** Frame `k` is in the target file and no later frame is. */
  predicate IsLastMatch(frames: seq<Frame>, target: string, absPath: string -> string, k: nat) {
    && k < |frames|
    && absPath(frames[k].filename) == target
    && forall m :: k < m < |frames| ==> absPath(frames[m].filename) != target
  }

  const FallbackPrefix := "An error occurred: "

  /** The message for a frame found in the target file. */
  function LocatedMessage(file: string, line: nat, message: string): (r: string)
    ensures |r| >= |message| && r[|r| - |message|..] == message
  {
    var head := "FILE: '" + Basename(file) + "', LINE: " + NatToString(line) + ":\n";
    EndsWith(head, message);
    head + message
  }

  /** A string ends with whatever was appended to it last. */
  lemma EndsWith(head: string, message: string)
    ensures (head + message)[|head + message| - |message|..] == message
  {
    assert (head + message)[|head|..] == message;
  }

  /** `generate_trace`: the exception's traceback `frames`, the absolute
      source file of the method it was raised through, and `str(exception)`.
      `absPath` stands for `os.path.abspath`, which depends on the working
      directory. */
  function GenerateTrace(frames: seq<Frame>, targetFile: string, absPath: string -> string, message: string): (r: string)
    ensures |r| >= |message| && r[|r| - |message|..] == message
    ensures (forall m :: 0 <= m < |frames| ==> absPath(frames[m].filename) != targetFile) ==>
              r == FallbackPrefix + message
    ensures forall k: nat :: IsLastMatch(frames, targetFile, absPath, k) ==>
              r == LocatedMessage(targetFile, frames[k].lineno, message)
  {
    match ScanReversed(frames, targetFile, absPath)
    case Some(k) =>
      assert forall k': nat :: IsLastMatch(frames, targetFile, absPath, k') ==> k' == k;
      LocatedMessage(targetFile, frames[k].lineno, message)
    case None =>
      EndsWith(FallbackPrefix, message);
      FallbackPrefix + message
  }
}
