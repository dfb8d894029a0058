/** Software serial (src/jsserial.c): the frame jsserialSoftwareFunc sends
    for one byte, the pin changes it schedules, and the option checks of
    jsserialPopulateSerialInfo. */
module SoftSerial {
  import opened Wrappers

  // ---------------------------------------------------------------------------
  // Arithmetic

  function Pow2(n: nat): (r: nat)
    ensures 1 <= r
  {
    if n == 0 then 1 else 2 * Pow2(n - 1)
  }

  lemma MulNonneg(a: int, b: int)
    ensures 0 <= a && 0 <= b ==> 0 <= a * b
  {
  }

  /** A multiple of m strictly between -m and m is 0. */
  lemma MulBetween(a: int, m: int)
    ensures 0 < m && -m < a * m < m ==> a == 0
  {
    MulNonneg(a - 1, m);
    MulNonneg(-a - 1, m);
    assert a * m == (a - 1) * m + m;
    assert a * m == -((-a - 1) * m) - m;
  }

  /** Quotient and remainder are determined by d == k*m + r, 0 <= r < m. */
  lemma DivModUnique(d: int, m: int, k: int, r: int)
    requires 0 < m && 0 <= r < m && d == k * m + r
    ensures d / m == k && d % m == r
  {
    var q, s := d / m, d % m;
    assert (q - k) * m == r - s;
    MulBetween(q - k, m);
  }

  /** Splitting off the low bit: d mod 2P and d div 2P in terms of d/2. */
  lemma DivModDouble(d: nat, p: nat)
    requires 1 <= p
    ensures d % (2 * p) == d % 2 + 2 * ((d / 2) % p)
    ensures d / (2 * p) == (d / 2) / p
  {
    var h := d / 2;
    var t, u := h / p, h % p;
    assert d == t * (2 * p) + (d % 2 + 2 * u);
    DivModUnique(d, 2 * p, t, d % 2 + 2 * u);
  }

  // ---------------------------------------------------------------------------
  // Frames

  /** The number a bit sequence encodes, first bit least significant (the
      order in which the send loop shifts bits out). */
  function Value(bits: seq<bool>): nat
  {
    if bits == [] then 0 else (if bits[0] then 1 else 0) + 2 * Value(bits[1..])
  }

  /** The low n bits of d, least significant first. */
  function DataBits(d: nat, n: nat): (b: seq<bool>)
    ensures |b| == n
  {
    if n == 0 then [] else [d % 2 == 1] + DataBits(d / 2, n - 1)
  }

  /** n stop bits, all high. */
  function StopBits(n: nat): (b: seq<bool>)
    ensures |b| == n && forall i :: 0 <= i < n ==> b[i]
  {
    seq(n, _ => true)
  }

  /** The frame of one byte: a low start bit, the bytesize low data bits
      least significant first, then the stop bits. */
  function Frame(data: nat, bytesize: nat, stopbits: nat): seq<bool>
  {
    [false] + DataBits(data, bytesize) + StopBits(stopbits)
  }

  /** The frame has 1 + bytesize + stopbits bits, starts with the low start
      bit, carries data bit i at position 1 + i and ends in stopbits high
      bits. */
  lemma FrameShape(data: nat, bytesize: nat, stopbits: nat)
    ensures var f := Frame(data, bytesize, stopbits);
            |f| == 1 + bytesize + stopbits && !f[0] &&
            (forall i :: 0 <= i < bytesize ==> f[1 + i] == DataBits(data, bytesize)[i]) &&
            (forall i :: 1 + bytesize <= i < |f| ==> f[i])
  {
  }

  /** Data bit i of the frame is bit i of the byte. */
  lemma {:induction false} DataBitsAt(d: nat, n: nat, i: nat)
    requires i < n
    ensures DataBits(d, n)[i] == ((d / Pow2(i)) % 2 == 1)
    decreases n
  {
    if i > 0 {
      DataBitsAt(d / 2, n - 1, i - 1);
      DivModDouble(d, Pow2(i - 1));
    }
  }

  /** Only the low bytesize bits of the byte reach the frame. */
  lemma {:induction false} DataBitsMasked(d: nat, n: nat)
    ensures DataBits(d % Pow2(n), n) == DataBits(d, n)
    decreases n
  {
    if n > 0 {
      var p := Pow2(n - 1);
      DivModDouble(d, p);
      var m := d % Pow2(n);
      assert m == d % 2 + 2 * ((d / 2) % p);
      assert m % 2 == d % 2 && m / 2 == (d / 2) % p;
      DataBitsMasked(d / 2, n - 1);
      assert DataBits(m, n) == [m % 2 == 1] + DataBits(m / 2, n - 1);
    }
  }

  lemma {:induction false} ValueAppend(a: seq<bool>, b: seq<bool>)
    ensures Value(a + b) == Value(a) + Pow2(|a|) * Value(b)
    decreases |a|
  {
    if a != [] {
      var ab := a + b;
      assert ab[0] == a[0] && ab[1..] == a[1..] + b;
      ValueAppend(a[1..], b);
      var low, rest, p, vb := (if a[0] then 1 else 0), Value(a[1..]), Pow2(|a| - 1), Value(b);
      assert Value(ab) == low + 2 * Value(a[1..] + b);
      assert Value(a[1..] + b) == rest + p * vb;
      assert Value(a) == low + 2 * rest;
      MulTwice(p, vb);
    } else {
      assert a + b == b;
    }
  }

  lemma MulTwice(p: int, v: int)
    ensures (2 * p) * v == 2 * (p * v)
  {
  }

  lemma {:induction false} ValueData(d: nat, n: nat)
    ensures Value(DataBits(d, n)) == d % Pow2(n)
    decreases n
  {
    if n > 0 {
      DivModDouble(d, Pow2(n - 1));
      assert DataBits(d, n)[1..] == DataBits(d / 2, n - 1);
      ValueData(d / 2, n - 1);
    }
  }

  lemma {:induction false} ValueStop(n: nat)
    ensures Value(StopBits(n)) == Pow2(n) - 1
    decreases n
  {
    if n > 0 {
      assert StopBits(n)[1..] == StopBits(n - 1);
      ValueStop(n - 1);
    }
  }

  /** The number jsserialSoftwareFunc builds, (((1<<stopbits)-1) << bytesize
      | data & ((1<<bytesize)-1)) << 1, read with shifts as
      multiplications by powers of two and the mask as a remainder. */
  function FrameWord(data: nat, bytesize: nat, stopbits: nat): nat
  {
    ((Pow2(stopbits) - 1) * Pow2(bytesize) + data % Pow2(bytesize)) * 2
  }

  /** That number encodes the frame. */
  lemma FrameWordValue(data: nat, bytesize: nat, stopbits: nat)
    ensures FrameWord(data, bytesize, stopbits) == Value(Frame(data, bytesize, stopbits))
  {
    var d, s := DataBits(data, bytesize), StopBits(stopbits);
    ValueData(data, bytesize);
    ValueStop(stopbits);
    ValueAppend(d, s);
    var f := Frame(data, bytesize, stopbits);
    assert f[1..] == d + s;
    assert Value(f) == 2 * Value(d + s);
    assert Value(d + s) == data % Pow2(bytesize) + Pow2(bytesize) * (Pow2(stopbits) - 1);
  }

  // ---------------------------------------------------------------------------
  // Sending

  /** One jstPinOutputAtTime call: drive the TX pin to level at time. */
  datatype PinEvent = PinEvent(time: int, level: bool)

  /** The events of a frame f sent from time start, one bit every bitTime,
      followed by the final high level. */
  function Schedule(f: seq<bool>, start: int, bitTime: int): (e: seq<PinEvent>)
    ensures |e| == |f| + 1
  {
    if f == [] then [PinEvent(start, true)]
    else [PinEvent(start, f[0])] + Schedule(f[1..], start + bitTime, bitTime)
  }

  /** Bit k of the frame is driven at start + k*bitTime, and the line returns
      high at start + |f|*bitTime. */
  lemma {:induction false} ScheduleAt(f: seq<bool>, start: int, bitTime: int, k: nat)
    requires k <= |f|
    ensures Schedule(f, start, bitTime)[k] ==
              PinEvent(start + k * bitTime, if k < |f| then f[k] else true)
    decreases k
  {
    if k > 0 {
      ScheduleAt(f[1..], start + bitTime, bitTime, k - 1);
      assert start + bitTime + (k - 1) * bitTime == start + k * bitTime;
    }
  }

  /** One turn of the send loop: the low bit of the remaining word is the
      next frame bit, shifting it out leaves the rest of the frame, and the
      event sent for it is the next one of the schedule. */
  lemma DrainStep(f: seq<bool>, j: nat, bitData: nat, events: seq<PinEvent>, time: int, bitTime: int)
    requires j < |f| && bitData == Value(f[j..])
    ensures (bitData % 2 == 1) == f[j] && bitData / 2 == Value(f[j + 1..])
    ensures (events + [PinEvent(time, f[j])]) + Schedule(f[j + 1..], time + bitTime, bitTime) ==
              events + Schedule(f[j..], time, bitTime)
  {
    var g := f[j..];
    assert g != [] && g[0] == f[j] && g[1..] == f[j + 1..];
    var e, rest := PinEvent(time, f[j]), Schedule(f[j + 1..], time + bitTime, bitTime);
    assert Schedule(g, time, bitTime) == [e] + rest;
    assert (events + [e]) + rest == events + ([e] + rest);
  }

  /** The options of a serial port (the fields of JshUSARTInfo used here). */
  class UsartInfo {
    var baudRate: int
    var bytesize: nat
    var stopbits: nat
    var parity: int
    var xOnXOff: bool

    constructor (baudRate: int, bytesize: nat, stopbits: nat, parity: int, xOnXOff: bool)
      ensures this.baudRate == baudRate && this.bytesize == bytesize && this.stopbits == stopbits
      ensures this.parity == parity && this.xOnXOff == xOnXOff
    {
      this.baudRate, this.bytesize, this.stopbits := baudRate, bytesize, stopbits;
      this.parity, this.xOnXOff := parity, xOnXOff;
    }
  }

  /** The word the frame is sent from (src/jsserial.c:38-46): stop bits,
      then the data bits below them, then the start bit; bitCnt counts them.
      Shifts are multiplications by powers of two, the mask a remainder and
      the or an addition of disjoint bit ranges. Shifting the word out low
      bit first gives the frame. */
  method BuildFrame(data: nat, bytesize: nat, stopbits: nat) returns (bitData: nat, bitCnt: nat)
    ensures bitData == Value(Frame(data, bytesize, stopbits))
    ensures bitCnt == |Frame(data, bytesize, stopbits)|
  {
    bitData := Pow2(stopbits) - 1;
    bitCnt := stopbits;
    bitData := bitData * Pow2(bytesize) + data % Pow2(bytesize);
    bitCnt := bitCnt + bytesize;
    bitData := bitData * 2;
    bitCnt := bitCnt + 1;
    FrameWordValue(data, bytesize, stopbits);
  }

  /** jsserialSoftwareFunc (src/jsserial.c:28-84): nothing when the TX pin
      is not valid; otherwise the frame of the byte, one event per bit from
      start (the time of the pin's last queued task, or shortly after now)
      and bitTime apart, and a final high level once the frame is over. */
  method SendByte(data: nat, inf: UsartInfo, txValid: bool, start: int, bitTime: int)
      returns (events: seq<PinEvent>)
    requires data < 256
    ensures !txValid ==> events == []
    ensures txValid ==> events == Schedule(Frame(data, inf.bytesize, inf.stopbits), start, bitTime)
  {
    events := [];
    if !txValid {
      return;
    }
    var bitData, bitCnt := BuildFrame(data, inf.bytesize, inf.stopbits);
    ghost var f := Frame(data, inf.bytesize, inf.stopbits);
    assert f[0..] == f;
    var time := start;
    var outCount := 0;
    ghost var j := 0;
    while bitCnt != 0
      invariant 0 <= j <= |f| && j + bitCnt == |f| && bitData == Value(f[j..])
      invariant events + Schedule(f[j..], time, bitTime) == Schedule(f, start, bitTime)
      decreases bitCnt
    {
      DrainStep(f, j, bitData, events, time, bitTime);
      var bit := bitData % 2 == 1;
      bitData := bitData / 2;
      bitCnt := bitCnt - 1;
      events := events + [PinEvent(time, bit)];
      time := time + bitTime;
      j := j + 1;
    }
    assert f[j..] == [];
    time := time + bitTime * outCount;
    events := events + [PinEvent(time, true)];
  }

  // ---------------------------------------------------------------------------
  // Options

  /** The values the options can take. */
  datatype JsValue = Undefined | Null | Str(s: string) | Int(i: int)

  /** What jsvReadConfigObject stored from the options object: the byte
      size and stop bits when given, and the parity and flow values
      (Undefined when absent). */
  datatype Options = Options(bytesize: Option<nat>, stopbits: Option<nat>, parity: JsValue, flow: JsValue)

  /** The errors jsExceptionHere raises. */
  datatype SerialError = InvalidBaud | InvalidParity(parity: int) | InvalidFlow

  /** A baud rate the port accepts. */
  predicate BaudOk(b: int) { 100 < b <= 10000000 }

  /** The parity an option names: "o"/"odd" is 1, "e"/"even" is 2, an
      integer is truncated to an unsigned char, anything else is 0. */
  function ParityOf(v: JsValue): (p: int)
    ensures 0 <= p < 256
    ensures v.Int? ==> p == v.i % 256
    ensures v.Str? ==> (p == 1 <==> v.s == "o" || v.s == "odd") && (p == 2 <==> v.s == "e" || v.s == "even")
    ensures !v.Int? ==> p <= 2
  {
    match v
    case Str(s) => if s == "o" || s == "odd" then 1 else if s == "e" || s == "even" then 2 else 0
    case Int(i) => i % 256
    case _ => 0
  }

  /** The flow control an option names: none when undefined, null or
      "none", XON/XOFF for "xon", invalid otherwise. */
  datatype Flow = NoFlow | XonXoff | BadFlow

  function FlowOf(v: JsValue): (r: Flow)
    ensures r == NoFlow <==> v == Undefined || v == Null || v == Str("none")
    ensures r == XonXoff <==> v == Str("xon")
  {
    if v == Undefined || v == Null || v == Str("none") then NoFlow
    else if v == Str("xon") then XonXoff
    else BadFlow
  }

  /** An integer parity is accepted exactly when its low byte is 0, 1 or 2:
      257 is odd parity. */
  lemma IntParityAccepted(i: int)
    ensures ParityOf(Int(i)) <= 2 <==> i % 256 <= 2
  {
  }

  /** Parity and flow control are both valid. */
  predicate SettingsOk(o: Options)
  {
    ParityOf(o.parity) <= 2 && FlowOf(o.flow) != BadFlow
  }

  /** The errors raised for the options: a bad parity, or else a bad flow
      control; never both, since flow is not looked at after a bad parity. */
  function OptionErrors(o: Options): (e: seq<SerialError>)
    ensures e == [] <==> SettingsOk(o)
    ensures |e| <= 1
    ensures ParityOf(o.parity) > 2 ==> e == [InvalidParity(ParityOf(o.parity))]
  {
    if ParityOf(o.parity) > 2 then [InvalidParity(ParityOf(o.parity))]
    else if FlowOf(o.flow) == BadFlow then [InvalidFlow]
    else []
  }

  /** The options part of jsserialPopulateSerialInfo
      (src/jsserial.c:114-140): store the byte size and stop bits read, set
      the parity (an error and false above 2) and, only when that was
      accepted, the flow control (an error and false when invalid). */
  method ApplyOptions(inf: UsartInfo, o: Options) returns (ok: bool, errors: seq<SerialError>)
    modifies inf
    ensures inf.baudRate == old(inf.baudRate)
    ensures inf.bytesize == if o.bytesize.Some? then o.bytesize.value else old(inf.bytesize)
    ensures inf.stopbits == if o.stopbits.Some? then o.stopbits.value else old(inf.stopbits)
    ensures inf.parity == ParityOf(o.parity)
    ensures inf.xOnXOff == if SettingsOk(o) then FlowOf(o.flow) == XonXoff else old(inf.xOnXOff)
    ensures ok == SettingsOk(o) && errors == OptionErrors(o)
  {
    errors := [];
    ok := true;
    if o.bytesize.Some? {
      inf.bytesize := o.bytesize.value;
    }
    if o.stopbits.Some? {
      inf.stopbits := o.stopbits.value;
    }
    var parity, flow := o.parity, o.flow;
    inf.parity := 0;
    if parity.Str? {
      if parity.s == "o" || parity.s == "odd" {
        inf.parity := 1;
      } else if parity.s == "e" || parity.s == "even" {
        inf.parity := 2;
      }
    } else if parity.Int? {
      inf.parity := parity.i % 256;
    }
    if inf.parity > 2 {
      errors := errors + [InvalidParity(inf.parity)];
      ok := false;
    }

    if ok {
      if flow.Undefined? || flow.Null? || flow == Str("none") {
        inf.xOnXOff := false;
      } else if flow == Str("xon") {
        inf.xOnXOff := true;
      } else {
        errors := errors + [InvalidFlow];
        ok := false;
      }
    }
  }

  /** jsserialPopulateSerialInfo (src/jsserial.c:86-145) after
      jshUSARTInitInfo filled inf with its defaults. baudInt is the value
      jsvGetInteger gives for baud; options is what jsvReadConfigObject
      stored, or None when it failed.

      A defined baud rate is stored only when it is in range, else an error
      is raised and the default stays, and the result does not depend on
      it. With the options read, the parity is set (an error and false
      above 2), and only then the flow control (an error and false when it
      is invalid). When the options could not be read the result is true. */
  method PopulateSerialInfo(inf: UsartInfo, baud: JsValue, baudInt: int, options: Option<Options>)
      returns (ok: bool, errors: seq<SerialError>)
    modifies inf
    ensures inf.baudRate == if !baud.Undefined? && BaudOk(baudInt) then baudInt else old(inf.baudRate)
    ensures inf.bytesize == if options.Some? && options.value.bytesize.Some?
                            then options.value.bytesize.value else old(inf.bytesize)
    ensures inf.stopbits == if options.Some? && options.value.stopbits.Some?
                            then options.value.stopbits.value else old(inf.stopbits)
    ensures inf.parity == if options.Some? then ParityOf(options.value.parity) else old(inf.parity)
    ensures inf.xOnXOff == if options.Some? && SettingsOk(options.value)
                           then FlowOf(options.value.flow) == XonXoff else old(inf.xOnXOff)
    ensures ok <==> options.None? || SettingsOk(options.value)
    ensures errors ==
              (if !baud.Undefined? && !BaudOk(baudInt) then [InvalidBaud] else []) +
              (if options.Some? then OptionErrors(options.value) else [])
  {
    errors := [];
    if !baud.Undefined? {
      var b := baudInt;
      if b <= 100 || b > 10000000 {
        errors := errors + [InvalidBaud];
      } else {
        inf.baudRate := b;
      }
    }
    ghost var e0 := errors;

    ok := true;
    if options.Some? {
      var e;
      ok, e := ApplyOptions(inf, options.value);
      errors := errors + e;
    }
    assert e0 + [] == e0;
  }
}
