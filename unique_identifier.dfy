// A named unique identifier (RDFer/UniqueIdentifier.cs): a lower-case hex
// string generated from a fresh GUID and the clock, stored on first read or
// on an explicit Generate.

module UniqueIdentifiers {
  import opened DotNet

  newtype byte = x: int | 0 <= x < 256

  const TWO_TO_64: int := 0x1_0000_0000_0000_0000

  /** What GenerateUniqueId takes from its environment: the bytes of
      Guid.NewGuid() and DateTime.Now.Ticks. */
  datatype Seed = Seed(guid: seq<byte>, ticks: int)

  /** Aggregate<byte, long>(1, (current, b) => current * (b + 1)), each
      product wrapping to 64 bits; kept as the unsigned residue. */
  function ByteProduct(bytes: seq<byte>): (r: int)
    ensures 0 <= r < TWO_TO_64
  {
    if |bytes| == 0 then 1
    else (ByteProduct(bytes[..|bytes| - 1]) * (bytes[|bytes| - 1] as int + 1)) % TWO_TO_64
  }

  function HexDigit(d: nat): char
    requires d < 16
  {
    if d < 10 then ('0' as int + d) as char else ('a' as int + d - 10) as char
  }

  predicate IsLowerHexDigit(c: char)
  {
    ('0' <= c <= '9') || ('a' <= c <= 'f')
  }

  predicate IsLowerHex(s: string)
  {
    forall i :: 0 <= i < |s| ==> IsLowerHexDigit(s[i])
  }

  function HexDigitValue(c: char): nat
    requires IsLowerHexDigit(c)
  {
    if c <= '9' then c as int - '0' as int else c as int - 'a' as int + 10
  }

  /** The format "{0:x}": lower-case hex digits, no leading zeros. */
  function LowerHex(n: nat): (r: string)
    ensures |r| > 0 && IsLowerHex(r)
    ensures r[0] != '0' || n == 0
  {
    if n < 16 then [HexDigit(n)] else LowerHex(n / 16) + [HexDigit(n % 16)]
  }

  function HexValue(s: string): nat
    requires IsLowerHex(s)
  {
    if |s| == 0 then 0 else HexValue(s[..|s| - 1]) * 16 + HexDigitValue(s[|s| - 1])
  }

  /** The hex rendering loses nothing: reading it back gives the number. */
  lemma {:induction false} HexRoundTrip(n: nat)
    ensures HexValue(LowerHex(n)) == n
  {
    if n >= 16 {
      HexRoundTrip(n / 16);
      var s := LowerHex(n);
      assert s[..|s| - 1] == LowerHex(n / 16);
    }
  }

  /** GenerateUniqueId: the wrapped product minus the ticks, as the hex of
      its 64-bit two's-complement pattern. */
  function GenerateUniqueId(seed: Seed): (r: string)
    ensures |r| > 0 && IsLowerHex(r)
    ensures HexValue(r) == (ByteProduct(seed.guid) - seed.ticks) % TWO_TO_64
  {
    var n := (ByteProduct(seed.guid) - seed.ticks) % TWO_TO_64;
    HexRoundTrip(n);
    LowerHex(n)
  }

  class UniqueIdentifier {
    var name: string
    /** The stored identifier; "" stands for C#'s null or empty _uniqueId. */
    var uniqueId: string

    constructor(name: string)
      ensures this.name == name && uniqueId == ""
    {
      this.name := name;
      uniqueId := "";
    }

    /** The UniqueId getter: generates and stores an identifier when none is
        stored, and returns the stored one. */
    method UniqueId(seed: Seed) returns (id: string)
      modifies this`uniqueId
      ensures old(uniqueId) != "" ==> uniqueId == old(uniqueId)
      ensures old(uniqueId) == "" ==> uniqueId == GenerateUniqueId(seed)
      ensures id == uniqueId && id != ""
    {
      if uniqueId == "" {
        uniqueId := GenerateUniqueId(seed);
      }
      id := uniqueId;
    }

    /** Generate(): replaces the stored identifier unconditionally. */
    method Generate(seed: Seed)
      modifies this`uniqueId
      ensures uniqueId == GenerateUniqueId(seed) && uniqueId != ""
    {
      uniqueId := GenerateUniqueId(seed);
    }
  }

  /** Reading UniqueId twice gives the same identifier: the second read does
      not consult its seed. */
  method ReadTwice(name: string, first: Seed, second: Seed) returns (a: string, b: string)
    ensures a == b == GenerateUniqueId(first)
  {
    var u := new UniqueIdentifier(name);
    a := u.UniqueId(first);
    b := u.UniqueId(second);
  }
}
