/**
 The hexadecimal codec and the request format of the command-line helper
 (anduinos-bash-guess-command/native/anduinos_ghost.c).
 */
module HexCodec {
  import opened Sequences

  const MAX_LINE := 32768

  function Digit(n: int): Byte
    requires 0 <= n < 16
  {
    if n < 10 then 48 + n else 87 + n
  }

  /** The value of a hexadecimal character, or -1. */
  function Nibble(c: Byte): int {
    if 48 <= c <= 57 then c - 48
    else if 97 <= c <= 102 then c - 97 + 10
    else if 65 <= c <= 70 then c - 65 + 10
    else -1
  }

  function Hex(v: seq<Byte>): seq<Byte> {
    if v == [] then [] else Hex(v[..|v| - 1]) + [Digit(v[|v| - 1] / 16), Digit(v[|v| - 1] % 16)]
  }

  function Unhex(h: seq<Byte>): Option<seq<Byte>>
    decreases |h|
  {
    if h == [] then Some([])
    else if |h| == 1 then None
    else
      var front := Unhex(h[..|h| - 2]);
      var high, low := Nibble(h[|h| - 2]), Nibble(h[|h| - 1]);
      if front.None? || high < 0 || low < 0 then None else Some(front.value + [high * 16 + low])
  }

  function Lower(h: seq<Byte>): seq<Byte> {
    seq(|h|, i requires 0 <= i < |h| => if 65 <= h[i] <= 70 then h[i] + 32 else h[i])
  }

  lemma {:induction false} HexLength(v: seq<Byte>)
    ensures |Hex(v)| == 2 * |v|
    ensures forall i :: 0 <= i < |Hex(v)| ==> Nibble(Hex(v)[i]) >= 0 && Hex(v)[i] != 10 && Hex(v)[i] != 0
  {
    if v != [] {
      HexLength(v[..|v| - 1]);
    }
  }

  lemma DigitValue(n: int)
    requires 0 <= n < 16
    ensures Nibble(Digit(n)) == n
  {
  }

  lemma UnhexSnoc(h: seq<Byte>, a: Byte, b: Byte)
    ensures Unhex(h + [a, b]) ==
            if Unhex(h).None? || Nibble(a) < 0 || Nibble(b) < 0 then None
            else Some(Unhex(h).value + [Nibble(a) * 16 + Nibble(b)])
  {
  }

  /** Decoding undoes encoding. */
  lemma {:induction false} RoundTrip(v: seq<Byte>)
    ensures Unhex(Hex(v)) == Some(v)
  {
    if v != [] {
      var front, last := v[..|v| - 1], v[|v| - 1];
      RoundTrip(front);
      DigitValue(last / 16);
      DigitValue(last % 16);
      UnhexSnoc(Hex(front), Digit(last / 16), Digit(last % 16));
      assert v == front + [last];
    }
  }

  lemma PairDigits(a: Byte, b: Byte)
    requires Nibble(a) >= 0 && Nibble(b) >= 0
    ensures var n := Nibble(a) * 16 + Nibble(b);
            [Digit(n / 16), Digit(n % 16)] == Lower([a, b])
  {
    var n := Nibble(a) * 16 + Nibble(b);
    assert n / 16 == Nibble(a) && n % 16 == Nibble(b);
  }

  lemma HexSnoc(v: seq<Byte>, b: Byte)
    ensures Hex(v + [b]) == Hex(v) + [Digit(b / 16), Digit(b % 16)]
  {
  }

  lemma LowerConcat(g: seq<Byte>, h: seq<Byte>)
    ensures Lower(g + h) == Lower(g) + Lower(h)
  {
  }

  /** Encoding undoes decoding, up to the case of the letters. */
  lemma {:induction false} RoundTripBack(h: seq<Byte>)
    requires Unhex(h).Some?
    ensures Hex(Unhex(h).value) == Lower(h)
    decreases |h|
  {
    if h != [] {
      var front, a, b := h[..|h| - 2], h[|h| - 2], h[|h| - 1];
      assert h == front + [a, b];
      RoundTripBack(front);
      OnePairBack(front, a, b);
    }
  }

  lemma OnePairBack(front: seq<Byte>, a: Byte, b: Byte)
    requires Unhex(front).Some? && Nibble(a) >= 0 && Nibble(b) >= 0 && Hex(Unhex(front).value) == Lower(front)
    ensures Unhex(front + [a, b]).Some? && Hex(Unhex(front + [a, b]).value) == Lower(front + [a, b])
  {
    UnhexSnoc(front, a, b);
    HexSnoc(Unhex(front).value, Nibble(a) * 16 + Nibble(b));
    PairDigits(a, b);
    LowerConcat(front, [a, b]);
  }

  /** hex_encode: refuses a string that could not fit a request or finds no memory, else writes it digit by digit. */
  method HexEncode(value: seq<Byte>, memory: bool) returns (encoded: array?<Byte>)
    ensures encoded == null <==> |value| > 16352 || !memory
    ensures encoded != null ==> fresh(encoded) && encoded.Length == 2 * |value| + 1
    ensures encoded != null ==> encoded[..2 * |value|] == Hex(value) && encoded[2 * |value|] == 0
  {
    if |value| > (MAX_LINE - 64) / 2 || !memory {
      return null;
    }
    var buffer := new Byte[2 * |value| + 1];
    for index := 0 to |value|
      invariant buffer[..2 * index] == Hex(value[..index])
    {
      var byte := value[index];
      buffer[index * 2] := Digit(byte / 16);
      buffer[index * 2 + 1] := Digit(byte % 16);
      assert value[..index + 1][..index] == value[..index];
      assert buffer[..2 * index + 2] == buffer[..2 * index] + [Digit(byte / 16), Digit(byte % 16)];
    }
    buffer[2 * |value|] := 0;
    assert value[..|value|] == value;
    return buffer;
  }

  /** hex_decode: refuses an odd length and any other character. */
  method HexDecode(value: seq<Byte>, memory: bool) returns (decoded: array?<Byte>)
    ensures decoded == null <==> Unhex(value).None? || !memory
    ensures decoded != null ==> decoded.Length == |value| / 2 + 1
    ensures decoded != null ==> decoded[..|value| / 2] == Unhex(value).value && decoded[|value| / 2] == 0
  {
    if |value| % 2 != 0 {
      OddRefused(value);
      return null;
    }
    if !memory {
      return null;
    }
    var buffer := new Byte[|value| / 2 + 1];
    var index := 0;
    while index < |value|
      invariant 0 <= index <= |value| && index % 2 == 0
      invariant Unhex(value[..index]) == Some(buffer[..index / 2])
    {
      var high, low := Nibble(value[index]), Nibble(value[index + 1]);
      assert value[..index + 2] == value[..index] + [value[index], value[index + 1]];
      UnhexSnoc(value[..index], value[index], value[index + 1]);
      if high < 0 || low < 0 {
        PrefixRefused(value, index + 2);
        return null;
      }
      ghost var before := buffer[..index / 2];
      buffer[index / 2] := high * 16 + low;
      assert buffer[..index / 2 + 1] == before + [high * 16 + low];
      index := index + 2;
    }
    assert value[..|value|] == value;
    buffer[|value| / 2] := 0;
    return buffer;
  }

  lemma {:induction false} OddRefused(h: seq<Byte>)
    requires |h| % 2 == 1
    ensures Unhex(h).None?
    decreases |h|
  {
    if |h| > 1 {
      OddRefused(h[..|h| - 2]);
    }
  }

  lemma {:induction false} PrefixRefused(h: seq<Byte>, k: nat)
    requires k <= |h| && |h| % 2 == k % 2 && Unhex(h[..k]).None?
    ensures Unhex(h).None?
    decreases |h|
  {
    if k == |h| {
      assert h[..k] == h;
    } else {
      assert h[..|h| - 2][..k] == h[..k];
      PrefixRefused(h[..|h| - 2], k);
    }
  }

  // ---------------------------------------------------------------- requests

  function Decimal(n: nat): seq<Byte> {
    if n < 10 then [48 + n] else Decimal(n / 10) + [48 + n % 10]
  }

  function Power10(k: nat): nat {
    if k == 0 then 1 else 10 * Power10(k - 1)
  }

  lemma {:induction false} DecimalLength(n: nat, k: nat)
    requires k >= 1 && n < Power10(k)
    ensures |Decimal(n)| <= k
    ensures forall i :: 0 <= i < |Decimal(n)| ==> 48 <= Decimal(n)[i] <= 57
    decreases k
  {
    if n >= 10 {
      DecimalLength(n / 10, k - 1);
    }
  }

  /** What the front end tells the helper: the line being typed, or how the last command ended. */
  datatype Message =
    | Query(stamp: nat, line: seq<Byte>)
    | Observation(status: int, stamp: nat, line: seq<Byte>, cwd: seq<Byte>)

  function Signed(n: int): seq<Byte> {
    if n < 0 then [45] + Decimal(-n) else Decimal(n)
  }

  /** The text of a message: its letter and its fields, separated by tabs. */
  function Text(m: Message): seq<Byte> {
    match m
    case Query(stamp, line) => [81, 9] + Decimal(stamp) + [9] + Hex(line) + [10]
    case Observation(status, stamp, line, cwd) =>
      [79, 9] + Signed(status) + [9] + Decimal(stamp) + [9] + Hex(line) + [9] + Hex(cwd) + [10]
  }

  predicate Encodable(value: seq<Byte>) {
    |value| <= (MAX_LINE - 64) / 2
  }

  /** The request that is sent: none when a field is too long to encode or the text does not fit its buffer. */
  function Request(m: Message): Option<seq<Byte>> {
    if Encodable(m.line) && (m.Observation? ==> Encodable(m.cwd)) && |Text(m)| < MAX_LINE
    then Some(Text(m)) else None
  }

  /** The buffer the reply goes to. */
  function ReplyCapacity(m: Message): nat {
    if m.Query? then MAX_LINE else 64
  }

  lemma {:induction false} DecimalDigits(n: nat)
    ensures |Decimal(n)| > 0 && forall i :: 0 <= i < |Decimal(n)| ==> 48 <= Decimal(n)[i] <= 57
  {
    if n >= 10 {
      DecimalDigits(n / 10);
    }
  }

  /** Every message is one line: no field can bring a newline with it. */
  lemma TextIsLine(m: Message)
    ensures IsLine(Text(m))
  {
    DecimalDigits(m.stamp);
    HexLength(m.line);
    match m
    case Query(stamp, line) =>
      assert InLine([81, 9] + Decimal(stamp) + [9] + Hex(line));
    case Observation(status, stamp, line, cwd) =>
      DecimalDigits(if status < 0 then -status else status);
      HexLength(cwd);
      var numbers := [79, 9] + Signed(status) + [9] + Decimal(stamp) + [9];
      assert InLine(numbers);
      assert InLine(numbers + Hex(line) + [9] + Hex(cwd));
  }

  ghost predicate InLine(s: seq<Byte>) {
    forall i :: 0 <= i < |s| ==> s[i] != 10
  }

  lemma TwentyDigits()
    ensures Power10(20) == 100_000_000_000_000_000_000
  {
    assert Power10(5) == 100_000;
    assert Power10(10) == 100_000 * Power10(5);
    assert Power10(15) == 100_000 * Power10(10);
    assert Power10(20) == 100_000 * Power10(15);
  }

  /** A query always fits its buffer: whatever hex_encode lets through, with any 64-bit time stamp. */
  lemma QueryFits(stamp: nat, line: seq<Byte>)
    requires stamp < 0x1_0000_0000_0000_0000 && |line| <= 16352
    ensures Request(Query(stamp, line)) == Some(Text(Query(stamp, line))) && IsLine(Text(Query(stamp, line)))
  {
    TwentyDigits();
    DecimalLength(stamp, 20);
    HexLength(line);
    TextIsLine(Query(stamp, line));
  }

  /** An observation is sent exactly if its two encoded fields leave room for the numbers. */
  lemma ObservationFits(status: int, stamp: nat, line: seq<Byte>, cwd: seq<Byte>)
    ensures Request(Observation(status, stamp, line, cwd)).Some? <==>
            2 * (|line| + |cwd|) + |Signed(status)| + |Decimal(stamp)| + 6 < 32768
            && |line| <= 16352 && |cwd| <= 16352
  {
    HexLength(line);
    HexLength(cwd);
  }

  // ---------------------------------------------------------------- reading a message back

  /** The pieces between tabs. */
  function Fields(s: seq<Byte>): (fs: seq<seq<Byte>>)
    ensures |fs| > 0
  {
    if s == [] then [[]]
    else
      var rest := Fields(s[1..]);
      if s[0] == 9 then [[]] + rest else [[s[0]] + rest[0]] + rest[1..]
  }

  function ReadDecimal(s: seq<Byte>): Option<nat> {
    if s == [] then None
    else
      var front, last := if |s| == 1 then Some(0) else ReadDecimal(s[..|s| - 1]), s[|s| - 1];
      if front.None? || !(48 <= last <= 57) then None else Some(10 * front.value + (last - 48))
  }

  function ReadSigned(s: seq<Byte>): Option<int> {
    if s != [] && s[0] == 45 then
      var n := ReadDecimal(s[1..]);
      if n.Some? then Some(0 - n.value) else None
    else
      var n := ReadDecimal(s);
      if n.Some? then Some(n.value) else None
  }

  /** A reader of the helper's input: a letter and its fields, up to the newline. */
  function ReadMessage(line: seq<Byte>): Option<Message> {
    if line == [] || line[|line| - 1] != 10 then None
    else
      var f := Fields(line[..|line| - 1]);
      if |f| == 3 && f[0] == [81] then
        var stamp, typed := ReadDecimal(f[1]), Unhex(f[2]);
        if stamp.Some? && typed.Some? then Some(Query(stamp.value, typed.value)) else None
      else if |f| == 5 && f[0] == [79] then
        var status, stamp, ran, cwd := ReadSigned(f[1]), ReadDecimal(f[2]), Unhex(f[3]), Unhex(f[4]);
        if status.Some? && stamp.Some? && ran.Some? && cwd.Some?
        then Some(Observation(status.value, stamp.value, ran.value, cwd.value)) else None
      else None
  }

  ghost predicate NoTab(s: seq<Byte>) {
    forall i :: 0 <= i < |s| ==> s[i] != 9
  }

  lemma {:induction false} OneField(s: seq<Byte>)
    requires NoTab(s)
    ensures Fields(s) == [s]
  {
    if s != [] {
      OneField(s[1..]);
      assert [s[0]] + s[1..] == s;
    }
  }

  lemma {:induction false} FirstField(s: seq<Byte>, rest: seq<Byte>)
    requires NoTab(s)
    ensures Fields(s + ([9] + rest)) == [s] + Fields(rest)
  {
    if s == [] {
      assert s + ([9] + rest) == [9] + rest && ([9] + rest)[1..] == rest;
    } else {
      var whole := s + ([9] + rest);
      assert whole[0] == s[0] && whole[1..] == s[1..] + ([9] + rest);
      FirstField(s[1..], rest);
      assert [s[0]] + s[1..] == s;
    }
  }

  /** The digits of a number are its own. */
  lemma {:induction false} DecimalReads(n: nat)
    ensures ReadDecimal(Decimal(n)) == Some(n)
  {
    DecimalDigits(n);
    if n >= 10 {
      DecimalReads(n / 10);
      DecimalDigits(n / 10);
      var s := Decimal(n);
      assert s[..|s| - 1] == Decimal(n / 10) && s[|s| - 1] == 48 + n % 10;
    }
  }

  lemma SignedReads(n: int)
    ensures ReadSigned(Signed(n)) == Some(n) && NoTab(Signed(n))
  {
    var m := if n < 0 then -n else n;
    DecimalReads(m);
    DecimalDigits(m);
    if n < 0 {
      assert Signed(n)[1..] == Decimal(m);
    }
  }

  lemma NumberField(n: nat)
    ensures ReadDecimal(Decimal(n)) == Some(n) && NoTab(Decimal(n))
  {
    DecimalReads(n);
    DecimalDigits(n);
  }

  lemma {:induction false} HexField(v: seq<Byte>)
    ensures Unhex(Hex(v)) == Some(v) && NoTab(Hex(v))
  {
    RoundTrip(v);
    HexLength(v);
  }

  lemma QueryFields(stamp: seq<Byte>, line: seq<Byte>)
    requires NoTab(stamp) && NoTab(line)
    ensures Fields([81, 9] + stamp + [9] + line) == [[81], stamp, line]
  {
    OneField(line);
    FirstField(stamp, line);
    FirstField([81], stamp + ([9] + line));
    assert [81, 9] + stamp + [9] + line == [81] + ([9] + (stamp + ([9] + line)));
  }

  /** Four pieces joined by tabs, associated from the right. */
  function Joined(a: seq<Byte>, b: seq<Byte>, c: seq<Byte>, d: seq<Byte>): seq<Byte> {
    a + ([9] + (b + ([9] + (c + ([9] + d)))))
  }

  lemma JoinedFields(a: seq<Byte>, b: seq<Byte>, c: seq<Byte>, d: seq<Byte>)
    requires NoTab(a) && NoTab(b) && NoTab(c) && NoTab(d)
    ensures Fields(Joined(a, b, c, d)) == [a, b, c, d]
  {
    OneField(d);
    FirstField(c, d);
    FirstField(b, c + ([9] + d));
    FirstField(a, b + ([9] + (c + ([9] + d))));
  }

  lemma JoinedLeft(a: seq<Byte>, b: seq<Byte>, c: seq<Byte>, d: seq<Byte>)
    ensures [79, 9] + a + [9] + b + [9] + c + [9] + d == [79] + ([9] + Joined(a, b, c, d))
  {
  }

  lemma ObservationFields(status: seq<Byte>, stamp: seq<Byte>, line: seq<Byte>, cwd: seq<Byte>)
    requires NoTab(status) && NoTab(stamp) && NoTab(line) && NoTab(cwd)
    ensures Fields([79, 9] + status + [9] + stamp + [9] + line + [9] + cwd) == [[79], status, stamp, line, cwd]
  {
    JoinedLeft(status, stamp, line, cwd);
    JoinedFields(status, stamp, line, cwd);
    FirstField([79], Joined(status, stamp, line, cwd));
  }

  /** Whoever reads the text of a message gets back the message, every field in its place. */
  lemma MessageReads(m: Message)
    ensures ReadMessage(Text(m)) == Some(m)
  {
    NumberField(m.stamp);
    HexField(m.line);
    var text := Text(m);
    match m
    case Query(stamp, line) =>
      QueryFields(Decimal(stamp), Hex(line));
      assert text[..|text| - 1] == [81, 9] + Decimal(stamp) + [9] + Hex(line);
    case Observation(status, stamp, line, cwd) =>
      SignedReads(status);
      HexField(cwd);
      ObservationFields(Signed(status), Decimal(stamp), Hex(line), Hex(cwd));
      assert text[..|text| - 1]
          == [79, 9] + Signed(status) + [9] + Decimal(stamp) + [9] + Hex(line) + [9] + Hex(cwd);
  }

  /** Two messages with the same text are the same: a reply to the text is a reply to the message. */
  lemma TextIsInjective(m: Message, n: Message)
    requires Text(m) == Text(n)
    ensures m == n
  {
    MessageReads(m);
    MessageReads(n);
  }

  /** The digits are those of the table "0123456789abcdef". */
  lemma DigitTable(n: int)
    requires 0 <= n < 16
    ensures Digit(n) == "0123456789abcdef"[n] as int
  {
  }

  /** One line: a newline at the end and nowhere else. */
  ghost predicate IsLine(s: seq<Byte>) {
    |s| > 0 && s[|s| - 1] == 10 && forall i :: 0 <= i < |s| - 1 ==> s[i] != 10
  }
}
