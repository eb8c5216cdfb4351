/**
 Frames of the master/slave serial link: what every encoder of main/slave.c writes.
 A frame is 0x55 0xAA | length LE16 | id LE16 | payload | checksum LE16, where the length counts
 everything after itself and the checksum is the 16-bit wrapping sum of everything before it.
 */
module SlaveFrame {
  import opened Basics

  type u16 = x: int | 0 <= x < 0x1_0000
  type u32 = x: int | 0 <= x < 0x1_0000_0000

  const START0: byte := 0x55
  const START1: byte := 0xAA
  const SLAVE_REQUEST: u16 := 256
  /** Room for the bytes after the length field in the receiver's buffer. */
  const MAX_LENGTH: nat := 1020

  function Sum(s: seq<byte>): nat {
    if s == [] then 0 else Sum(s[..|s| - 1]) + s[|s| - 1]
  }

  lemma {:induction false} SumConcat(s: seq<byte>, t: seq<byte>)
    ensures Sum(s + t) == Sum(s) + Sum(t)
  {
    if t == [] {
      assert s + t == s;
    } else {
      assert (s + t)[..|s + t| - 1] == s + t[..|t| - 1];
      SumConcat(s, t[..|t| - 1]);
    }
  }

  /** Changing one byte changes the sum by exactly the difference. */
  lemma SumUpdate(s: seq<byte>, k: nat, b: byte)
    requires k < |s|
    ensures Sum(s[k := b]) == Sum(s) - s[k] + b
  {
    assert s == s[..k] + [s[k]] + s[k + 1..];
    assert s[k := b] == s[..k] + [b] + s[k + 1..];
    SumConcat(s[..k], [s[k]]);
    SumConcat(s[..k] + [s[k]], s[k + 1..]);
    SumConcat(s[..k], [b]);
    SumConcat(s[..k] + [b], s[k + 1..]);
    SumSingle(s[k]);
    SumSingle(b);
  }

  lemma SumSingle(b: byte)
    ensures Sum([b]) == b
  {
    assert [b][..0] == [];
  }

  lemma AddModulo(x: nat, b: byte)
    ensures (x + b) % 0x1_0000 == (x % 0x1_0000 + b) % 0x1_0000
  {
  }

  function Le16(x: u16): (s: seq<byte>)
    ensures |s| == 2 && s[0] as int + 256 * s[1] as int == x
  {
    [x % 256, x / 256]
  }

  function Le32(x: u32): (s: seq<byte>)
    ensures |s| == 4
    ensures s[0] as int + 0x100 * s[1] as int + 0x1_0000 * s[2] as int + 0x100_0000 * s[3] as int == x
  {
    Le16(x % 0x1_0000) + Le16(x / 0x1_0000)
  }

  /** Everything the master sends, by encoder. */
  datatype Message =
    | Response(id: byte)                            // SlaveSendResponse
    | Command(id: byte)                             // SlaveSendID
    | Setting(id: byte, first: byte, second: byte)  // the get, set and relay requests
    | CpConfig(config: seq<byte>)                   // SlaveSendControlPilotConfig
    | FirmwareData(packetNo: u32, data: seq<byte>)  // sendFirmwareData

  const CP_CONFIG_ID: byte := 6
  const FIRMWARE_DATA_ID: byte := 10
  const CP_CONFIG_SIZE: nat := 136

  predicate WellFormed(m: Message) {
    match m
    case CpConfig(config) => |config| == CP_CONFIG_SIZE
    case FirmwareData(_, data) => |data| + 8 <= MAX_LENGTH
    case _ => true
  }

  function WireId(m: Message): u16 {
    match m
    case Response(id) => id
    case Command(id) => id + SLAVE_REQUEST
    case Setting(id, _, _) => id + SLAVE_REQUEST
    case CpConfig(_) => CP_CONFIG_ID + SLAVE_REQUEST
    case FirmwareData(_, _) => FIRMWARE_DATA_ID + SLAVE_REQUEST
  }

  function Payload(m: Message): seq<byte> {
    match m
    case Response(id) => [id, 0, 0, 0]
    case Command(id) => [id, 0, 0, 0]
    case Setting(_, first, second) => [first, second, 0, 0]
    case CpConfig(config) => config
    case FirmwareData(packetNo, data) => Le32(packetNo) + data
  }

  /** The value of the length field. */
  function Length(m: Message): (n: u16)
    requires WellFormed(m)
    ensures 8 <= n <= MAX_LENGTH
  {
    |Payload(m)| + 4
  }

  /** Id and payload, as transmitted. */
  function Content(m: Message): seq<byte> {
    Le16(WireId(m)) + Payload(m)
  }

  /** Everything before the checksum. */
  function Prefix(m: Message): seq<byte>
    requires WellFormed(m)
  {
    [START0, START1] + Le16(Length(m)) + Content(m)
  }

  /** Everything after the length field: what the receiver counts and stores. */
  function Body(m: Message): seq<byte>
    requires WellFormed(m)
  {
    Content(m) + Le16(Sum(Prefix(m)) % 0x1_0000)
  }

  function Frame(m: Message): seq<byte>
    requires WellFormed(m)
  {
    Prefix(m) + Le16(Sum(Prefix(m)) % 0x1_0000)
  }

  /** Every byte an encoder puts on the line, by position: start bytes, length of what follows it, id, 256
      more than the plain one for a request, the fields of each message, and the sum of all before. */
  lemma FrameLayout(m: Message)
    requires WellFormed(m)
    ensures var f := Frame(m);
            && |f| == (match m
                       case CpConfig(_) => 144
                       case FirmwareData(_, data) => 12 + |data|
                       case _ => 12)
            && f[0] == 0x55 && f[1] == 0xAA && f[2] as int + 256 * f[3] as int == |f| - 4
            && (match m
                case Response(id) => f[4] == id && f[5] == 0 && f[6] == id && f[7] == f[8] == f[9] == 0
                case Command(id) => f[4] == id && f[5] == 1 && f[6] == id && f[7] == f[8] == f[9] == 0
                case Setting(id, first, second) =>
                  f[4] == id && f[5] == 1 && f[6] == first && f[7] == second && f[8] == f[9] == 0
                case CpConfig(config) => f[4] == 6 && f[5] == 1 && f[6..142] == config
                case FirmwareData(packetNo, data) =>
                  && f[4] == 10 && f[5] == 1 && f[10..|f| - 2] == data
                  && f[6] as int + 0x100 * f[7] as int + 0x1_0000 * f[8] as int + 0x100_0000 * f[9] as int == packetNo)
            && f[|f| - 2] as int + 256 * f[|f| - 1] as int == Sum(f[..|f| - 2]) % 0x1_0000
  {
    var f := Frame(m);
    var sum := Le16(Sum(Prefix(m)) % 0x1_0000);
    assert f[..|f| - 2] == Prefix(m) && f[|f| - 2..] == sum;
    assert f[4..|f| - 2] == Content(m);
    assert f[6..|f| - 2] == Payload(m);
    if m.FirmwareData? {
      assert f[10..|f| - 2] == Payload(m)[4..];
    }
  }

  /** The checksum loop repeated in every encoder, with its 16-bit accumulator. */
  method Checksum(data: array<byte>, n: nat) returns (checksum: u16)
    requires n <= data.Length
    ensures checksum == Sum(data[..n]) % 0x1_0000
  {
    checksum := 0;
    for i := 0 to n
      invariant checksum == Sum(data[..i]) % 0x1_0000
    {
      assert data[..i + 1] == data[..i] + [data[i]];
      SumConcat(data[..i], [data[i]]);
      SumSingle(data[i]);
      AddModulo(Sum(data[..i]), data[i]);
      checksum := (checksum as int + data[i] as int) % 0x1_0000;
    }
  }

  /** The encoders' common buffer code: lay out the message, then append the checksum. */
  method Encode(m: Message) returns (data: array<byte>)
    requires WellFormed(m)
    ensures fresh(data) && data[..] == Frame(m)
  {
    var prefix := Prefix(m);
    var n := |prefix|;
    data := new byte[n + 2](_ => 0);
    forall i | 0 <= i < n {
      data[i] := prefix[i];
    }
    assert data[..n] == prefix;
    var checksum := Checksum(data, n);
    var trailer := Le16(checksum);
    data[n], data[n + 1] := trailer[0], trailer[1];
    assert data[..] == prefix + trailer;
  }
}
