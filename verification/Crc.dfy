/**
  * The reflected CRC-32 of the table headers (section 4.2 of UEFI 2.4; the
  * algorithm is that of section 8 of RFC 1952): the bit-at-a-time form, and the
  * table that takes a byte at a time.
  */
module Crc {
  import opened Seqs
  import opened Words

  const POLYNOMIAL: bv32 := 0xEDB88320
  const INITIAL: bv32 := 0xFFFF_FFFF

  // ---------- the bit-at-a-time form ----------

  /** One step of the shift register. */
  function BitStep(c: bv32): bv32 {
    if c & 1 == 1 then (c >> 1) ^ POLYNOMIAL else c >> 1
  }

  function Feedback(c: bv32): bv32 {
    if Odd(c) then POLYNOMIAL else 0
  }

  lemma BitStepForm(c: bv32)
    ensures BitStep(c) == Xor(Half(c), Feedback(c))
  {
    if Odd(c) {
      OddStep(c);
    } else {
      EvenStep(c);
      XorZero(Half(c));
    }
    hide *;
  }

  lemma OddStep(c: bv32)
    requires Odd(c)
    ensures BitStep(c) == Xor(Half(c), POLYNOMIAL) && Feedback(c) == POLYNOMIAL
  {
  }

  lemma EvenStep(c: bv32)
    requires !Odd(c)
    ensures BitStep(c) == Half(c) && Feedback(c) == 0
  {
  }

  /** The register after the bits of a message. */
  function Register(c: bv32, bits: seq<bool>): bv32
    decreases |bits|
  {
    if bits == [] then c else Register(BitStep(Xor(c, BitWord(bits[0]))), bits[1..])
  }

  /** The bits of a byte, least significant first. */
  function ByteBits(b: bv8): (bits: seq<bool>)
    ensures |bits| == 8
  {
    LowBits(b as bv32, 8)
  }

  function Bits(bytes: seq<bv8>): (bits: seq<bool>)
    ensures |bits| == 8 * |bytes|
  {
    if bytes == [] then [] else ByteBits(bytes[0]) + Bits(bytes[1..])
  }

  /** The CRC-32 of a byte string. */
  function Crc32(bytes: seq<bv8>): bv32 {
    Xor(Register(INITIAL, Bits(bytes)), INITIAL)
  }

  /** The register after a concatenation is that of the second part started from the first. */
  lemma {:induction false} RegisterConcat(c: bv32, a: seq<bool>, b: seq<bool>)
    ensures Register(c, a + b) == Register(Register(c, a), b)
    decreases |a|
  {
    hide BitStep, BitWord, Xor;
    if a == [] {
      assert a + b == b;
    } else {
      TailOfConcat(a, b);
      RegisterConcat(BitStep(Xor(c, BitWord(a[0]))), a[1..], b);
    }
  }

  lemma {:induction false} BitsConcat(a: seq<bv8>, b: seq<bv8>)
    ensures Bits(a + b) == Bits(a) + Bits(b)
  {
    hide ByteBits;
    if a == [] {
      assert a + b == b;
    } else {
      TailOfConcat(a, b);
      BitsConcat(a[1..], b);
      Assoc(ByteBits(a[0]), Bits(a[1..]), Bits(b));
    }
  }

  // ---------- input words ----------

  /** The register shifted `k` times without input. */
  function Steps(k: nat, x: bv32): bv32
    decreases k
  {
    if k == 0 then x else Steps(k - 1, BitStep(x))
  }

  /** All but the lowest bit of an input word pass through one step unchanged. */
  lemma FeedOne(c: bv32, w: bv32)
    ensures BitStep(Xor(c, w)) == Xor(BitStep(Xor(c, BitWord(Odd(w)))), Half(w))
  {
    var b := BitWord(Odd(w));
    BitStepForm(Xor(c, w));
    BitStepForm(Xor(c, b));
    hide BitStep, Xor, Half, Odd, BitWord;
    HalfXor(c, w);
    HalfXor(c, b);
    OddXor(c, w);
    OddXor(c, b);
    BitWordParts(Odd(w));
    XorZero(Half(c));
    XorSwap(Half(c), Half(w), Feedback(Xor(c, w)));
  }

  /** The low bits of a word can be added to the register at once, before the shifts; the rest comes out at the end. */
  lemma {:induction false} FeedAll(k: nat, c: bv32, w: bv32)
    ensures Steps(k, Xor(c, w)) == Xor(Register(c, LowBits(w, k)), HighPart(w, k))
    decreases k
  {
    hide BitStep, BitWord, Xor, Half, Odd;
    if k > 0 {
      FeedOne(c, w);
      FeedAll(k - 1, BitStep(Xor(c, BitWord(Odd(w)))), Half(w));
    }
  }

  // ---------- the table ----------

  /** The 256 constants of the source, in its order. */
  function CRCTable(i: bv8): bv32 {
    match i >> 4
    case 0x0 => (match i & 0xF
      case 0x0 => 0x00000000 case 0x1 => 0x77073096 case 0x2 => 0xEE0E612C case 0x3 => 0x990951BA
      case 0x4 => 0x076DC419 case 0x5 => 0x706AF48F case 0x6 => 0xE963A535 case 0x7 => 0x9E6495A3
      case 0x8 => 0x0EDB8832 case 0x9 => 0x79DCB8A4 case 0xA => 0xE0D5E91E case 0xB => 0x97D2D988
      case 0xC => 0x09B64C2B case 0xD => 0x7EB17CBD case 0xE => 0xE7B82D07 case _ => 0x90BF1D91)
    case 0x1 => (match i & 0xF
      case 0x0 => 0x1DB71064 case 0x1 => 0x6AB020F2 case 0x2 => 0xF3B97148 case 0x3 => 0x84BE41DE
      case 0x4 => 0x1ADAD47D case 0x5 => 0x6DDDE4EB case 0x6 => 0xF4D4B551 case 0x7 => 0x83D385C7
      case 0x8 => 0x136C9856 case 0x9 => 0x646BA8C0 case 0xA => 0xFD62F97A case 0xB => 0x8A65C9EC
      case 0xC => 0x14015C4F case 0xD => 0x63066CD9 case 0xE => 0xFA0F3D63 case _ => 0x8D080DF5)
    case 0x2 => (match i & 0xF
      case 0x0 => 0x3B6E20C8 case 0x1 => 0x4C69105E case 0x2 => 0xD56041E4 case 0x3 => 0xA2677172
      case 0x4 => 0x3C03E4D1 case 0x5 => 0x4B04D447 case 0x6 => 0xD20D85FD case 0x7 => 0xA50AB56B
      case 0x8 => 0x35B5A8FA case 0x9 => 0x42B2986C case 0xA => 0xDBBBC9D6 case 0xB => 0xACBCF940
      case 0xC => 0x32D86CE3 case 0xD => 0x45DF5C75 case 0xE => 0xDCD60DCF case _ => 0xABD13D59)
    case 0x3 => (match i & 0xF
      case 0x0 => 0x26D930AC case 0x1 => 0x51DE003A case 0x2 => 0xC8D75180 case 0x3 => 0xBFD06116
      case 0x4 => 0x21B4F4B5 case 0x5 => 0x56B3C423 case 0x6 => 0xCFBA9599 case 0x7 => 0xB8BDA50F
      case 0x8 => 0x2802B89E case 0x9 => 0x5F058808 case 0xA => 0xC60CD9B2 case 0xB => 0xB10BE924
      case 0xC => 0x2F6F7C87 case 0xD => 0x58684C11 case 0xE => 0xC1611DAB case _ => 0xB6662D3D)
    case 0x4 => (match i & 0xF
      case 0x0 => 0x76DC4190 case 0x1 => 0x01DB7106 case 0x2 => 0x98D220BC case 0x3 => 0xEFD5102A
      case 0x4 => 0x71B18589 case 0x5 => 0x06B6B51F case 0x6 => 0x9FBFE4A5 case 0x7 => 0xE8B8D433
      case 0x8 => 0x7807C9A2 case 0x9 => 0x0F00F934 case 0xA => 0x9609A88E case 0xB => 0xE10E9818
      case 0xC => 0x7F6A0DBB case 0xD => 0x086D3D2D case 0xE => 0x91646C97 case _ => 0xE6635C01)
    case 0x5 => (match i & 0xF
      case 0x0 => 0x6B6B51F4 case 0x1 => 0x1C6C6162 case 0x2 => 0x856530D8 case 0x3 => 0xF262004E
      case 0x4 => 0x6C0695ED case 0x5 => 0x1B01A57B case 0x6 => 0x8208F4C1 case 0x7 => 0xF50FC457
      case 0x8 => 0x65B0D9C6 case 0x9 => 0x12B7E950 case 0xA => 0x8BBEB8EA case 0xB => 0xFCB9887C
      case 0xC => 0x62DD1DDF case 0xD => 0x15DA2D49 case 0xE => 0x8CD37CF3 case _ => 0xFBD44C65)
    case 0x6 => (match i & 0xF
      case 0x0 => 0x4DB26158 case 0x1 => 0x3AB551CE case 0x2 => 0xA3BC0074 case 0x3 => 0xD4BB30E2
      case 0x4 => 0x4ADFA541 case 0x5 => 0x3DD895D7 case 0x6 => 0xA4D1C46D case 0x7 => 0xD3D6F4FB
      case 0x8 => 0x4369E96A case 0x9 => 0x346ED9FC case 0xA => 0xAD678846 case 0xB => 0xDA60B8D0
      case 0xC => 0x44042D73 case 0xD => 0x33031DE5 case 0xE => 0xAA0A4C5F case _ => 0xDD0D7CC9)
    case 0x7 => (match i & 0xF
      case 0x0 => 0x5005713C case 0x1 => 0x270241AA case 0x2 => 0xBE0B1010 case 0x3 => 0xC90C2086
      case 0x4 => 0x5768B525 case 0x5 => 0x206F85B3 case 0x6 => 0xB966D409 case 0x7 => 0xCE61E49F
      case 0x8 => 0x5EDEF90E case 0x9 => 0x29D9C998 case 0xA => 0xB0D09822 case 0xB => 0xC7D7A8B4
      case 0xC => 0x59B33D17 case 0xD => 0x2EB40D81 case 0xE => 0xB7BD5C3B case _ => 0xC0BA6CAD)
    case 0x8 => (match i & 0xF
      case 0x0 => 0xEDB88320 case 0x1 => 0x9ABFB3B6 case 0x2 => 0x03B6E20C case 0x3 => 0x74B1D29A
      case 0x4 => 0xEAD54739 case 0x5 => 0x9DD277AF case 0x6 => 0x04DB2615 case 0x7 => 0x73DC1683
      case 0x8 => 0xE3630B12 case 0x9 => 0x94643B84 case 0xA => 0x0D6D6A3E case 0xB => 0x7A6A5AA8
      case 0xC => 0xE40ECF0B case 0xD => 0x9309FF9D case 0xE => 0x0A00AE27 case _ => 0x7D079EB1)
    case 0x9 => (match i & 0xF
      case 0x0 => 0xF00F9344 case 0x1 => 0x8708A3D2 case 0x2 => 0x1E01F268 case 0x3 => 0x6906C2FE
      case 0x4 => 0xF762575D case 0x5 => 0x806567CB case 0x6 => 0x196C3671 case 0x7 => 0x6E6B06E7
      case 0x8 => 0xFED41B76 case 0x9 => 0x89D32BE0 case 0xA => 0x10DA7A5A case 0xB => 0x67DD4ACC
      case 0xC => 0xF9B9DF6F case 0xD => 0x8EBEEFF9 case 0xE => 0x17B7BE43 case _ => 0x60B08ED5)
    case 0xA => (match i & 0xF
      case 0x0 => 0xD6D6A3E8 case 0x1 => 0xA1D1937E case 0x2 => 0x38D8C2C4 case 0x3 => 0x4FDFF252
      case 0x4 => 0xD1BB67F1 case 0x5 => 0xA6BC5767 case 0x6 => 0x3FB506DD case 0x7 => 0x48B2364B
      case 0x8 => 0xD80D2BDA case 0x9 => 0xAF0A1B4C case 0xA => 0x36034AF6 case 0xB => 0x41047A60
      case 0xC => 0xDF60EFC3 case 0xD => 0xA867DF55 case 0xE => 0x316E8EEF case _ => 0x4669BE79)
    case 0xB => (match i & 0xF
      case 0x0 => 0xCB61B38C case 0x1 => 0xBC66831A case 0x2 => 0x256FD2A0 case 0x3 => 0x5268E236
      case 0x4 => 0xCC0C7795 case 0x5 => 0xBB0B4703 case 0x6 => 0x220216B9 case 0x7 => 0x5505262F
      case 0x8 => 0xC5BA3BBE case 0x9 => 0xB2BD0B28 case 0xA => 0x2BB45A92 case 0xB => 0x5CB36A04
      case 0xC => 0xC2D7FFA7 case 0xD => 0xB5D0CF31 case 0xE => 0x2CD99E8B case _ => 0x5BDEAE1D)
    case 0xC => (match i & 0xF
      case 0x0 => 0x9B64C2B0 case 0x1 => 0xEC63F226 case 0x2 => 0x756AA39C case 0x3 => 0x026D930A
      case 0x4 => 0x9C0906A9 case 0x5 => 0xEB0E363F case 0x6 => 0x72076785 case 0x7 => 0x05005713
      case 0x8 => 0x95BF4A82 case 0x9 => 0xE2B87A14 case 0xA => 0x7BB12BAE case 0xB => 0x0CB61B38
      case 0xC => 0x92D28E9B case 0xD => 0xE5D5BE0D case 0xE => 0x7CDCEFB7 case _ => 0x0BDBDF21)
    case 0xD => (match i & 0xF
      case 0x0 => 0x86D3D2D4 case 0x1 => 0xF1D4E242 case 0x2 => 0x68DDB3F8 case 0x3 => 0x1FDA836E
      case 0x4 => 0x81BE16CD case 0x5 => 0xF6B9265B case 0x6 => 0x6FB077E1 case 0x7 => 0x18B74777
      case 0x8 => 0x88085AE6 case 0x9 => 0xFF0F6A70 case 0xA => 0x66063BCA case 0xB => 0x11010B5C
      case 0xC => 0x8F659EFF case 0xD => 0xF862AE69 case 0xE => 0x616BFFD3 case _ => 0x166CCF45)
    case 0xE => (match i & 0xF
      case 0x0 => 0xA00AE278 case 0x1 => 0xD70DD2EE case 0x2 => 0x4E048354 case 0x3 => 0x3903B3C2
      case 0x4 => 0xA7672661 case 0x5 => 0xD06016F7 case 0x6 => 0x4969474D case 0x7 => 0x3E6E77DB
      case 0x8 => 0xAED16A4A case 0x9 => 0xD9D65ADC case 0xA => 0x40DF0B66 case 0xB => 0x37D83BF0
      case 0xC => 0xA9BCAE53 case 0xD => 0xDEBB9EC5 case 0xE => 0x47B2CF7F case _ => 0x30B5FFE9)
    case _ => (match i & 0xF
      case 0x0 => 0xBDBDF21C case 0x1 => 0xCABAC28A case 0x2 => 0x53B39330 case 0x3 => 0x24B4A3A6
      case 0x4 => 0xBAD03605 case 0x5 => 0xCDD70693 case 0x6 => 0x54DE5729 case 0x7 => 0x23D967BF
      case 0x8 => 0xB3667A2E case 0x9 => 0xC4614AB8 case 0xA => 0x5D681B02 case 0xB => 0x2A6F2B94
      case 0xC => 0xB40BBE37 case 0xD => 0xC30C8EA1 case 0xE => 0x5A05DF1B case _ => 0x2D02EF8D)
  }

  /** Eight steps of the register. */
  function ByteStep(c: bv32): bv32 {
    BitStep(BitStep(BitStep(BitStep(BitStep(BitStep(BitStep(BitStep(c))))))))
  }

  /** Every table entry is what eight bit steps make of its index. */
  lemma TableIsByteStep(i: bv8)
    ensures CRCTable(i) == ByteStep(i as bv32)
  {
    match i >> 4
    case 0x0 =>
    case 0x1 =>
    case 0x2 =>
    case 0x3 =>
    case 0x4 =>
    case 0x5 =>
    case 0x6 =>
    case 0x7 =>
    case 0x8 =>
    case 0x9 =>
    case 0xA =>
    case 0xB =>
    case 0xC =>
    case 0xD =>
    case 0xE =>
    case _ =>
  }

  lemma ByteStepIsSteps(x: bv32)
    ensures ByteStep(x) == Steps(8, x)
  {
    hide BitStep;
    var y := BitStep(BitStep(BitStep(BitStep(x))));
    assert Steps(8, x) == Steps(7, BitStep(x)) == Steps(6, BitStep(BitStep(x)));
    assert Steps(6, BitStep(BitStep(x))) == Steps(5, BitStep(BitStep(BitStep(x)))) == Steps(4, y);
    assert Steps(4, y) == Steps(3, BitStep(y)) == Steps(2, BitStep(BitStep(y)));
    assert Steps(2, BitStep(BitStep(y))) == Steps(1, BitStep(BitStep(BitStep(y))));
  }

  function Lowest(c: bv32): bv8 {
    (c & 0xFF) as bv8
  }

  function Mix(x: bv8, b: bv8): bv8 {
    x ^ b
  }

  function Combine(c: bv32, entry: bv32): bv32 {
    (c >> 8) ^ entry
  }

  /** The table step of the source. */
  function TableStep(c: bv32, b: bv8): bv32 {
    Combine(c, CRCTable(Mix(Lowest(c), b)))
  }

  lemma ByteAtOnce(c: bv32, b: bv8)
    ensures Steps(8, Xor(c, b as bv32)) == Register(c, ByteBits(b))
  {
    var w := b as bv32;
    FeedAll(8, c, w);
    HighPart8(w);
    assert w >> 8 == 0;
    hide *;
    XorZero(Register(c, LowBits(w, 8)));
  }

  lemma SplitByte(x: bv32, i: bv8)
    requires x & 0xFF == i as bv32
    ensures Steps(8, x) == Xor(Register(0, ByteBits(i)), x >> 8)
  {
    FeedAll(8, 0, x);
    HighPart8(x);
    assert (i as bv32) & 0xFF == i as bv32;
    LowByte(x, i as bv32);
    hide *;
    XorZero(x);
  }

  lemma TableEntry(i: bv8)
    ensures CRCTable(i) == Register(0, ByteBits(i))
  {
    TableIsByteStep(i);
    ByteStepIsSteps(i as bv32);
    assert (i as bv32) & 0xFF == i as bv32 && (i as bv32) >> 8 == 0;
    SplitByte(i as bv32, i);
    hide *;
    XorZero(Register(0, ByteBits(i)));
  }

  /** One table step is eight bit steps over the bits of the byte. */
  lemma TableStepIsBitwise(c: bv32, b: bv8)
    ensures TableStep(c, b) == Register(c, ByteBits(b))
  {
    hide CRCTable, Register, ByteBits, Steps, Xor, Mix, Lowest, Combine;
    var i, x := Mix(Lowest(c), b), Xor(c, b as bv32);
    MixedByte(c, b);
    TableEntry(i);
    ByteAtOnce(c, b);
    SplitByte(x, i);
    CombineIsXor(c, CRCTable(i));
  }

  /** The byte enters the lowest byte of the register. */
  lemma MixedByte(c: bv32, b: bv8)
    ensures Xor(c, b as bv32) & 0xFF == Mix(Lowest(c), b) as bv32
    ensures Xor(c, b as bv32) >> 8 == c >> 8
  {
  }

  lemma CombineIsXor(c: bv32, entry: bv32)
    ensures Combine(c, entry) == Xor(entry, c >> 8)
  {
  }
}
