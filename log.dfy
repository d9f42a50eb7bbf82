/**
 * The message-emitting core of the logging facade: the decision whether a
 * message is dropped, sent whole or sent one line at a time, and the
 * fixed-size chunking of long strings. What would be handed to the
 * platform logger is returned as a list of emissions instead.
 */
module Logging {
  import opened Wrappers
  import opened Seqs
  import opened Strings

  /** The longest message the platform logger accepts in one call (`adb logcat -g`). */
  const MaxMessageLength: nat := 4000

  /** One call of the platform logger: priority, tag and message text. */
  datatype Emission = Emission(priority: int, tag: string, message: string)

  /** The message with the throwable's stack-trace text, if any, on the lines after it. */
  function WithStackTrace(message: string, stackTrace: Option<string>): (r: string)
    ensures message <= r
    ensures stackTrace.None? ==> r == message
    ensures stackTrace.Some? ==> r[|message|..] == "\n" + stackTrace.value
  {
    match stackTrace
    case None => message
    case Some(trace) => message + "\n" + trace
  }

  /**
   * The logger's process-wide configuration: whether anything is logged and
   * the prefix put before every tag. One object stands for the static fields.
   */
  class Log {
    var isDebug: bool
    var tagPrefix: string

    /** The initial values of the static fields. */
    constructor ()
      ensures isDebug && tagPrefix == ""
    {
      isDebug := true;
      tagPrefix := "";
    }

    method SetIsDebug(enabled: bool)
      modifies this
      ensures isDebug == enabled && tagPrefix == old(tagPrefix)
    {
      isDebug := enabled;
    }

    method SetTagPrefix(prefix: string)
      modifies this
      ensures tagPrefix == prefix && isDebug == old(isDebug)
    {
      tagPrefix := prefix;
    }

    /**
     * What `println` hands to the platform logger. Nothing when logging is
     * off or the message is absent or empty. Otherwise the stack trace, if
     * any, is appended; a result shorter than the limit goes out in one call,
     * a longer one in one call per line (Java's `split("\n")`, which drops
     * trailing empty lines). Every call carries the prefixed tag.
     */
    method Println(priority: int, tag: string, message: Option<string>, stackTrace: Option<string>)
      returns (emitted: seq<Emission>)
      ensures !isDebug || message.None? || message.value == "" ==> emitted == []
      ensures isDebug && message.Some? && message.value != "" ==>
        var full := WithStackTrace(message.value, stackTrace);
        if |full| < MaxMessageLength then
          emitted == [Emission(priority, tagPrefix + tag, full)]
        else
          && |emitted| == |Lines(full)|
          && forall i :: 0 <= i < |emitted| ==> emitted[i] == Emission(priority, tagPrefix + tag, Lines(full)[i])
    {
      if !isDebug {
        return [];
      }
      if message.None? || |message.value| == 0 {
        return [];
      }
      var msg := message.value;
      if stackTrace.Some? {
        msg := msg + "\n" + stackTrace.value;
      }
      if |msg| < MaxMessageLength {
        emitted := [Emission(priority, tagPrefix + tag, msg)];
      } else {
        var lines := Lines(msg);
        emitted := [];
        for i := 0 to |lines|
          invariant |emitted| == i
          invariant forall k :: 0 <= k < i ==> emitted[k] == Emission(priority, tagPrefix + tag, lines[k])
        {
          emitted := emitted + [Emission(priority, tagPrefix + tag, lines[i])];
        }
      }
    }
  }

  /**
   * Cuts `str` into consecutive chunks of `MaxMessageLength` characters, the
   * last one possibly shorter; `null` and the empty string give no chunks.
   */
  method SplitLongString(str: Option<string>) returns (chunks: seq<string>)
    ensures str.None? ==> chunks == []
    ensures str.Some? ==> Flatten(chunks) == str.value
    ensures str.Some? ==> |chunks| == (|str.value| + MaxMessageLength - 1) / MaxMessageLength
    ensures forall i :: 0 <= i < |chunks| ==> 0 < |chunks[i]| <= MaxMessageLength
    ensures forall i :: 0 <= i < |chunks| - 1 ==> |chunks[i]| == MaxMessageLength
  {
    if str.None? {
      return [];
    }
    var s := str.value;
    chunks := [];
    var offset := 0;
    while offset < |s|
      invariant 0 <= offset <= |s|
      invariant Flatten(chunks) == s[..offset]
      invariant |chunks| == (offset + MaxMessageLength - 1) / MaxMessageLength
      invariant offset < |s| ==> offset == MaxMessageLength * |chunks|
      invariant forall i :: 0 <= i < |chunks| ==> 0 < |chunks[i]| <= MaxMessageLength
      invariant forall i :: 0 <= i < |chunks| - 1 ==> |chunks[i]| == MaxMessageLength
      invariant offset < |s| ==> forall i :: 0 <= i < |chunks| ==> |chunks[i]| == MaxMessageLength
      decreases |s| - offset
    {
      var size := if MaxMessageLength < |s| - offset then MaxMessageLength else |s| - offset;
      var chunk := s[offset..offset + size];
      assert (chunks + [chunk])[..|chunks|] == chunks;
      assert s[..offset] + chunk == s[..offset + size];
      chunks := chunks + [chunk];
      offset := offset + size;
    }
    assert s[..|s|] == s;
  }
}
