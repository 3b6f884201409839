/** A stdio output stream on a device with limited space: characters are collected in a buffer, full
    buffers are handed to the device, and only a hand-over inside `fprintf` reports that it did not
    fit (sections 7.21.3 and 7.21.5.1 of ISO C11). */
module Streams {
  import opened CText

  type Positive = n: nat | n > 0 witness 1

  /** The buffer size of a stream and the characters the device still takes, if it is limited. Whether
      a full buffer is handed over at once or with the next character is up to the library; here it
      happens at once. */
  datatype Device = Device(block: Positive, free: Option<nat>)

  const AMPLE := Device(4096, None)

  predicate Takes(dev: Device, n: nat) { dev.free.None? || n <= dev.free.value }

  /** What has reached the device, what is still in the buffer, and whether a hand-over has failed. */
  datatype Stream = Stream(disk: string, pending: string, failed: bool)

  const OPENED := Stream("", "", false)

  /** As much of a text as the device holds. */
  function Fitting(dev: Device, text: string): (r: string)
    ensures r <= text && |r| == if dev.free.None? then |text| else Min(|text|, dev.free.value)
  {
    if dev.free.None? then text else text[..Min(|text|, dev.free.value)]
  }

  /** The buffer goes to the device; what does not fit is lost. */
  function HandedOver(dev: Device, s: Stream): Stream {
    var all := s.disk + s.pending;
    Stream(Fitting(dev, all), "", s.failed || !Takes(dev, |all|))
  }

  /** `putc` */
  function PutChar(dev: Device, s: Stream, c: char): Stream {
    var t := s.(pending := s.pending + [c]);
    if |t.pending| < dev.block then t else HandedOver(dev, t)
  }

  /** `fprintf`; the stream's `failed` afterwards is the error it reports. */
  function Printed(dev: Device, s: Stream, text: string): Stream
    decreases |text|
  {
    if text == "" then s else PutChar(dev, Printed(dev, s, text[..|text| - 1]), text[|text| - 1])
  }

  /** What the device holds after `fclose`, whose result the callers do not look at. */
  function AfterClose(dev: Device, s: Stream): string { HandedOver(dev, s).disk }

  // ------------------------------------------------ what a printed text leaves

  /** How many of `n` characters are in whole buffers. */
  function Flushed(dev: Device, n: nat): (r: nat)
    ensures r <= n
  {
    NextOffset(n, dev.block);
    n - n % dev.block
  }

  /** The stream is where it has to be once `text` was printed from the start. */
  predicate Stands(dev: Device, s: Stream, text: string) {
    var n := Flushed(dev, |text|);
    s == Stream(Fitting(dev, text[..n]), text[n..], !Takes(dev, n))
  }

  lemma FlushedNext(dev: Device, n: nat)
    ensures n - Flushed(dev, n) < dev.block
    ensures Flushed(dev, n + 1) == if n + 1 - Flushed(dev, n) < dev.block then Flushed(dev, n) else n + 1
    ensures Flushed(dev, 0) == 0
  {
    NextOffset(n, dev.block);
  }

  lemma NextOffset(n: nat, block: Positive)
    ensures (n + 1) % block == if n % block + 1 == block then 0 else n % block + 1
    ensures n % block <= n
  {
    var q, r, q', r' := n / block, n % block, (n + 1) / block, (n + 1) % block;
    var d := q' - q;
    assert q * block + r == n && q' * block + r' == n + 1;
    assert d * block == q' * block - q * block;
    assert d * block == 1 + r - r';
    Times(d, block);
    Times(-d, block);
    Times(d - 1, block);
    assert (d - 1) * block == d * block - block && -d * block == -(d * block);
    Times(q, block);
  }

  lemma {:induction false} Times(d: int, block: Positive)
    ensures d >= 1 ==> d * block >= block
    ensures d == 0 ==> d * block == 0
    decreases if d < 0 then 0 else d
  {
    if d > 1 {
      Times(d - 1, block);
      assert d * block == (d - 1) * block + block;
    }
  }

  /** Text that was lost once stays lost. */
  lemma FittingGrows(dev: Device, a: string, b: string)
    ensures Fitting(dev, Fitting(dev, a) + b) == Fitting(dev, a + b) || !Takes(dev, |a|)
    ensures !Takes(dev, |a|) ==> Fitting(dev, Fitting(dev, a) + b) == Fitting(dev, a) == Fitting(dev, a + b)
  {
    if Takes(dev, |a|) {
      assert Fitting(dev, a) == a;
    } else {
      var f := dev.free.value;
      assert (a + b)[..f] == a[..f];
      assert (a[..f] + b)[..f] == a[..f];
    }
  }

  lemma HandOver(dev: Device, a: string, b: string)
    ensures HandedOver(dev, Stream(Fitting(dev, a), b, !Takes(dev, |a|)))
         == Stream(Fitting(dev, a + b), "", !Takes(dev, |a + b|))
  {
    FittingGrows(dev, a, b);
    if Takes(dev, |a|) {
      assert Fitting(dev, a) == a;
    }
  }

  lemma CharStands(dev: Device, s: Stream, text: string, c: char)
    requires Stands(dev, s, text)
    ensures Stands(dev, PutChar(dev, s, c), text + [c])
  {
    hide HandedOver, Fitting, Takes, Flushed;
    var t, n := text + [c], Flushed(dev, |text|);
    FlushedNext(dev, |text|);
    assert text[..n] + (text[n..] + [c]) == t;
    if |text| + 1 - n < dev.block {
      assert t[..n] == text[..n] && t[n..] == text[n..] + [c];
    } else {
      HandOver(dev, text[..n], text[n..] + [c]);
      assert t[..|t|] == t && t[|t|..] == "";
    }
  }

  /** `fprintf` calls add up. */
  lemma {:induction false} PrintedStands(dev: Device, s: Stream, before: string, text: string)
    requires Stands(dev, s, before)
    ensures Stands(dev, Printed(dev, s, text), before + text)
    decreases |text|
  {
    hide Stands, PutChar;
    if text == "" {
      assert before + text == before;
    } else {
      var init, c := text[..|text| - 1], text[|text| - 1];
      PrintedStands(dev, s, before, init);
      CharStands(dev, Printed(dev, s, init), before + init, c);
      assert before + init + [c] == before + text;
    }
  }

  lemma OpenedStands(dev: Device)
    ensures Stands(dev, OPENED, "")
  {
    hide Flushed;
    FlushedNext(dev, 0);
  }

  /** What is left of a text that was printed and closed, and when an `fprintf` has said so: the device
      keeps what it has room for, and only a loss in front of the last incomplete buffer is seen. */
  lemma ClosedStream(dev: Device, s: Stream, text: string)
    requires Stands(dev, s, text)
    ensures AfterClose(dev, s) == Fitting(dev, text)
    ensures s.failed <==> !Takes(dev, Flushed(dev, |text|))
  {
    hide HandedOver, Fitting, Takes, Flushed;
    var n := Flushed(dev, |text|);
    HandOver(dev, text[..n], text[n..]);
    assert text[..n] + text[n..] == text;
  }

  /** An error stays. */
  lemma {:induction false} FailedStays(dev: Device, s: Stream, text: string)
    ensures s.failed ==> Printed(dev, s, text).failed
    decreases |text|
  {
    if text != "" {
      FailedStays(dev, s, text[..|text| - 1]);
    }
  }
}
