/** The LZSS decoder msExpandDecompress of sysprep/drivercopy.py, against LZ77 copies from the output. */
module Lzss {
  import opened Bytes

  const RING := 4096
  const SZDD_MAGIC: seq<byte> := [0x53, 0x5A, 0x44, 0x44]
  const SZDD_START := 4096 - 16
  const HEADERLESS_START := 0xFEE

  // ----- what a payload says

  /** One flag bit's item: a byte, or a copy of `len` bytes starting at a ring position. */
  datatype Item = Literal(b: byte) | Back(matchpos: nat, len: nat)

  function BackItem(lo: byte, hi: byte): (i: Item)
    ensures i.Back? && i.matchpos < RING && 3 <= i.len <= 18
  {
    Back(lo + hi / 16 * 256, hi % 16 + 3)
  }

  /**
   The items from offset p on, with `bit` the flag of the control byte that is next (0x100: none is left).
   None: the payload ends inside a backreference, which raises an exception.
   */
  function Items(payload: seq<byte>, p: nat, control: byte, bit: nat): Option<seq<Item>>
    requires bit > 0
    decreases |payload| - p
  {
    if p >= |payload| then Some([])
    else if bit > 0x80 then Items(payload, p + 1, payload[p], 1)
    else if control / bit % 2 == 1 then Then(Literal(payload[p]), Items(payload, p + 1, control, 2 * bit))
    else if p + 1 >= |payload| then None
    else Then(BackItem(payload[p], payload[p + 1]), Items(payload, p + 2, control, 2 * bit))
  }

  function Then(item: Item, rest: Option<seq<Item>>): Option<seq<Item>> {
    if rest.None? then None else Some([item] + rest.value)
  }

  // ----- what the items mean: LZ77 over the output, preceded by spaces

  /** The byte d places back in the history. */
  function Behind(out: seq<byte>, d: nat): byte {
    if 1 <= d <= |out| then out[|out| - d] else 0x20
  }

  function CopyFrom(out: seq<byte>, d: nat, n: nat): (r: seq<byte>)
    ensures |r| == |out| + n && out <= r
    decreases n
  {
    if n == 0 then out else CopyFrom(out + [Behind(out, d)], d, n - 1)
  }

  /** How far back a ring position lies when t bytes have been put out. */
  function Distance(start: nat, t: nat, matchpos: nat): (d: nat)
    ensures 1 <= d <= RING
  {
    (start + t - matchpos - 1) % RING + 1
  }

  function Put(start: nat, out: seq<byte>, item: Item): seq<byte> {
    match item
    case Literal(b) => out + [b]
    case Back(matchpos, len) => CopyFrom(out, Distance(start, |out|, matchpos), len)
  }

  function Expand(start: nat, out: seq<byte>, items: seq<Item>): seq<byte>
    decreases |items|
  {
    if items == [] then out else Expand(start, Put(start, out, items[0]), items[1..])
  }

  function Finish(start: nat, out: seq<byte>, items: Option<seq<Item>>): Option<seq<byte>> {
    if items.None? then None else Some(Expand(start, out, items.value))
  }

  function DecodePayload(start: nat, payload: seq<byte>): Option<seq<byte>> {
    Finish(start, [], Items(payload, 0, 0, 0x100))
  }

  // ----- the ring window

  /** The window holds the last 4096 bytes of the history: d places back lies d slots before pos. */
  ghost predicate WindowHolds(window: seq<byte>, pos: int, out: seq<byte>) {
    |window| == RING && forall d :: 1 <= d <= RING ==> window[(pos - d) % RING] == Behind(out, d)
  }

  lemma WindowPut(window: seq<byte>, pos: nat, out: seq<byte>, b: byte)
    requires WindowHolds(window, pos, out) && pos < RING
    ensures WindowHolds(window[pos := b], (pos + 1) % RING, out + [b])
  {
    var pos' := (pos + 1) % RING;
    forall d | 1 <= d <= RING
      ensures window[pos := b][(pos' - d) % RING] == Behind(out + [b], d)
    {
      assert (pos' - d) % RING == (pos - (d - 1)) % RING;
      if d > 1 {
        assert window[(pos - (d - 1)) % RING] == Behind(out, d - 1);
      }
    }
  }

  /** Reading the window at a ring position is looking back by its distance. */
  lemma WindowGet(window: seq<byte>, pos: nat, out: seq<byte>, start: nat, matchpos: nat)
    requires WindowHolds(window, pos, out) && pos == (start + |out|) % RING && matchpos < RING
    ensures window[matchpos] == Behind(out, Distance(start, |out|, matchpos))
  {
    var d := Distance(start, |out|, matchpos);
    assert (pos - d) % RING == matchpos;
  }

  lemma DistanceStays(start: nat, t: nat, matchpos: nat)
    requires matchpos < RING
    ensures Distance(start, t + 1, (matchpos + 1) % RING) == Distance(start, t, matchpos)
  {
  }

  lemma RingNext(start: nat, t: nat)
    ensures ((start + t) % RING + 1) % RING == (start + (t + 1)) % RING
  {
  }

  lemma CopyStep(out: seq<byte>, d: nat, n: nat)
    requires n > 0
    ensures CopyFrom(out, d, n) == CopyFrom(out + [Behind(out, d)], d, n - 1)
  {
  }

  lemma CopyNothing(out: seq<byte>, d: nat)
    ensures CopyFrom(out, d, 0) == out
  {
  }

  lemma FreshWindow(window: seq<byte>, pos: nat)
    requires |window| == RING && pos < RING && forall i :: 0 <= i < RING ==> window[i] == 0x20
    ensures WindowHolds(window, pos, [])
  {
  }

  /** One byte goes to the output and into the window. */
  method Emit(window: array<byte>, pos0: nat, out0: seq<byte>, c: byte) returns (pos: nat, out: seq<byte>)
    requires WindowHolds(window[..], pos0, out0) && pos0 < RING && window.Length == RING
    modifies window
    ensures WindowHolds(window[..], pos, out) && pos == (pos0 + 1) % RING && out == out0 + [c]
  {
    WindowPut(window[..], pos0, out0, c);
    out := out0 + [c];
    window[pos0] := c;
    pos := (pos0 + 1) % RING;
  }

  /** The inner copy loop of the decoder. */
  method CopyBack(window: array<byte>, start: nat, pos0: nat, out0: seq<byte>, matchpos0: nat, matchlen: nat)
    returns (pos: nat, out: seq<byte>)
    requires WindowHolds(window[..], pos0, out0) && pos0 == (start + |out0|) % RING && matchpos0 < RING
    requires window.Length == RING
    modifies window
    ensures WindowHolds(window[..], pos, out) && pos == (start + |out|) % RING
    ensures out == CopyFrom(out0, Distance(start, |out0|, matchpos0), matchlen)
  {
    hide WindowHolds, Distance, Behind, CopyFrom;
    pos, out := pos0, out0;
    var matchpos: nat := matchpos0;
    ghost var d := Distance(start, |out0|, matchpos0);
    var i := 0;
    while i < matchlen
      invariant i <= matchlen && matchpos < RING
      invariant WindowHolds(window[..], pos, out) && pos == (start + |out|) % RING
      invariant Distance(start, |out|, matchpos) == d
      invariant CopyFrom(out, d, matchlen - i) == CopyFrom(out0, d, matchlen)
    {
      WindowGet(window[..], pos, out, start, matchpos);
      DistanceStays(start, |out|, matchpos);
      RingNext(start, |out|);
      CopyStep(out, d, matchlen - i);
      var c := window[matchpos];
      matchpos := (matchpos + 1) % RING;
      pos, out := Emit(window, pos, out, c);
      i := i + 1;
    }
    CopyNothing(out, d);
  }

  // ----- one round of the decoding loops, on the specification

  lemma ControlStep(start: nat, out: seq<byte>, payload: seq<byte>, p: nat, control: byte, bit: nat)
    requires p < |payload| && bit > 0x80
    ensures Finish(start, out, Items(payload, p, control, bit))
        == Finish(start, out, Items(payload, p + 1, payload[p], 1))
  {
  }

  lemma ItemStep(start: nat, out: seq<byte>, item: Item, rest: Option<seq<Item>>)
    ensures Finish(start, out, Then(item, rest)) == Finish(start, Put(start, out, item), rest)
  {
    if rest.Some? {
      assert ([item] + rest.value)[1..] == rest.value;
    }
  }

  lemma LiteralStep(start: nat, out: seq<byte>, payload: seq<byte>, p: nat, control: byte, bit: nat)
    requires p < |payload| && 0 < bit <= 0x80 && control / bit % 2 == 1
    ensures Finish(start, out, Items(payload, p, control, bit))
         == Finish(start, out + [payload[p]], Items(payload, p + 1, control, 2 * bit))
  {
    ItemStep(start, out, Literal(payload[p]), Items(payload, p + 1, control, 2 * bit));
  }

  lemma BackStep(start: nat, out: seq<byte>, payload: seq<byte>, p: nat, control: byte, bit: nat)
    requires p < |payload| && 0 < bit <= 0x80 && control / bit % 2 != 1
    ensures Finish(start, out, Items(payload, p, control, bit))
         == if p + 1 >= |payload| then None
            else Finish(start, Put(start, out, BackItem(payload[p], payload[p + 1])),
                Items(payload, p + 2, control, 2 * bit))
  {
    if p + 1 < |payload| {
      ItemStep(start, out, BackItem(payload[p], payload[p + 1]), Items(payload, p + 2, control, 2 * bit));
    }
  }

  lemma EndOfPayload(start: nat, out: seq<byte>, payload: seq<byte>, control: byte, bit: nat)
    requires bit > 0
    ensures Finish(start, out, Items(payload, |payload|, control, bit)) == Some(out)
  {
  }

  /** The decoding loop on a payload, with its window and ring position. */
  method DecodeLoop(payload: seq<byte>, ringStart: nat) returns (r: Option<seq<byte>>)
    requires ringStart < RING
    ensures r == DecodePayload(ringStart, payload)
  {
    hide WindowHolds, Items, Finish, BackItem, Distance;
    var window := new byte[RING](i => 0x20);
    var pos := ringStart;
    var out: seq<byte> := [];
    FreshWindow(window[..], pos);
    var p := 0;
    var control: byte := 0;
    var bit := 0x100;
    while p < |payload|
      invariant p <= |payload| && bit > 0 && (p < |payload| ==> bit > 0x80)
      invariant WindowHolds(window[..], pos, out) && pos == (ringStart + |out|) % RING
      invariant Finish(ringStart, out, Items(payload, p, control, bit)) == DecodePayload(ringStart, payload)
    {
      ControlStep(ringStart, out, payload, p, control, bit);
      control := payload[p];
      p := p + 1;
      bit := 1;
      while bit <= 0x80 && p < |payload|
        invariant 0 < p <= |payload| && bit > 0
        invariant WindowHolds(window[..], pos, out) && pos == (ringStart + |out|) % RING
        invariant Finish(ringStart, out, Items(payload, p, control, bit)) == DecodePayload(ringStart, payload)
        decreases |payload| - p
      {
        if control / bit % 2 == 1 {
          LiteralStep(ringStart, out, payload, p, control, bit);
          RingNext(ringStart, |out|);
          pos, out := Emit(window, pos, out, payload[p]);
          p := p + 1;
        } else {
          BackStep(ringStart, out, payload, p, control, bit);
          if p + 1 >= |payload| {
            return None;
          }
          var item := BackItem(payload[p], payload[p + 1]);
          pos, out := CopyBack(window, ringStart, pos, out, item.matchpos, item.len);
          p := p + 2;
        }
        bit := 2 * bit;
      }
    }
    EndOfPayload(ringStart, out, payload, control, bit);
    r := Some(out);
  }

  /** msExpandDecompress: with an SZDD header the ring starts at 4096 - 16 and the header length may trim. */
  function Decompressed(data: seq<byte>): Option<seq<byte>> {
    if |data| >= 14 && data[..4] == SZDD_MAGIC then
      var r := DecodePayload(SZDD_START, data[14..]);
      var outLen := FromLE(data[10..14]);
      if r.Some? && outLen > 0 && |r.value| >= outLen then Some(r.value[..outLen]) else r
    else DecodePayload(HEADERLESS_START, data)
  }

  method MsExpandDecompress(data: seq<byte>) returns (r: Option<seq<byte>>)
    ensures r == Decompressed(data)
  {
    var outLen, payload, ringStart := 0, data, HEADERLESS_START;
    if |data| >= 14 && data[..4] == SZDD_MAGIC {
      outLen := FromLE(data[10..14]);
      payload := data[14..];
      ringStart := SZDD_START;
    }
    r := DecodeLoop(payload, ringStart);
    if r.Some? && outLen > 0 && |r.value| >= outLen {
      r := Some(r.value[..outLen]);
    }
  }

  // ----- how much comes out

  /** Flags left in a control byte. */
  function FlagsLeft(bit: nat): nat
    requires bit > 0
    decreases 0x100 - bit
  {
    if bit > 0x80 then 0 else 1 + FlagsLeft(2 * bit)
  }

  /** Bytes that the items put out. */
  function TotalLength(items: seq<Item>): nat {
    if items == [] then 0 else (if items[0].Literal? then 1 else items[0].len) + TotalLength(items[1..])
  }

  lemma {:induction false} ExpandLength(start: nat, out: seq<byte>, items: seq<Item>)
    ensures |Expand(start, out, items)| == |out| + TotalLength(items)
    decreases |items|
  {
    if items != [] {
      ExpandLength(start, Put(start, out, items[0]), items[1..]);
    }
  }

  lemma AllFlags()
    ensures FlagsLeft(1) == 8
  {
    assert FlagsLeft(0x80) == 1;
    assert FlagsLeft(0x20) == 3;
    assert FlagsLeft(0x8) == 5;
    assert FlagsLeft(0x2) == 7;
  }

  /** A control byte pays for the 18 bytes by which each of its backreferences exceeds its own two. */
  lemma {:induction false} ItemsBound(payload: seq<byte>, p: nat, control: byte, bit: nat)
    requires bit > 0 && p <= |payload|
    ensures var items := Items(payload, p, control, bit);
      items.Some? ==> 17 * TotalLength(items.value) <= 144 * (|payload| - p) + 18 * FlagsLeft(bit)
    decreases |payload| - p
  {
    if p < |payload| {
      if bit > 0x80 {
        AllFlags();
        ItemsBound(payload, p + 1, payload[p], 1);
      } else if control / bit % 2 == 1 {
        ItemsBound(payload, p + 1, control, 2 * bit);
        ThenLength(Literal(payload[p]), Items(payload, p + 1, control, 2 * bit));
      } else if p + 1 < |payload| {
        ItemsBound(payload, p + 2, control, 2 * bit);
        ThenLength(BackItem(payload[p], payload[p + 1]), Items(payload, p + 2, control, 2 * bit));
      }
    }
  }

  lemma ThenLength(item: Item, rest: Option<seq<Item>>)
    ensures rest.Some? ==>
      TotalLength(Then(item, rest).value) == (if item.Literal? then 1 else item.len) + TotalLength(rest.value)
  {
    if rest.Some? {
      assert ([item] + rest.value)[1..] == rest.value;
    }
  }

  /** Decoding expands at most by 144 / 17, and an SZDD length that was reached is met exactly. */
  lemma OutputBound(data: seq<byte>)
    ensures var r := Decompressed(data);
      r.Some? ==>
        && 17 * |r.value| <= 144 * |data|
        && (|data| >= 14 && data[..4] == SZDD_MAGIC && FromLE(data[10..14]) > 0 ==>
              |r.value| == Min(FromLE(data[10..14]), |DecodePayload(SZDD_START, data[14..]).value|))
  {
    var szdd := |data| >= 14 && data[..4] == SZDD_MAGIC;
    var payload := if szdd then data[14..] else data;
    var start := if szdd then SZDD_START else HEADERLESS_START;
    var items := Items(payload, 0, 0, 0x100);
    ItemsBound(payload, 0, 0, 0x100);
    if items.Some? {
      ExpandLength(start, [], items.value);
    }
  }

  // ----- the decoder inverts every encoder of LZ77 streams

  /** What an encoder wants to say: a byte, or a copy from `dist` bytes back. */
  datatype Token = Byte(b: byte) | Match(dist: nat, len: nat)

  predicate TokensOk(tokens: seq<Token>) {
    forall i :: 0 <= i < |tokens| ==> (tokens[i].Match? ==> 1 <= tokens[i].dist <= RING && 3 <= tokens[i].len <= 18)
  }

  function TokenPut(out: seq<byte>, t: Token): seq<byte> {
    match t
    case Byte(b) => out + [b]
    case Match(dist, len) => CopyFrom(out, dist, len)
  }

  /** The plain meaning of a token stream, without any window. */
  function Meaning(out: seq<byte>, tokens: seq<Token>): seq<byte>
    decreases |tokens|
  {
    if tokens == [] then out else Meaning(TokenPut(out, tokens[0]), tokens[1..])
  }

  /** The bytes of one token when t bytes were put out: a ring position of 12 bits and a length of 4. */
  function TokenBytes(start: nat, t: nat, token: Token): seq<byte>
    requires token.Match? ==> 1 <= token.dist <= RING && 3 <= token.len <= 18
  {
    match token
    case Byte(b) => [b]
    case Match(dist, len) =>
      var m := (start + t + RING - dist) % RING;
      [m % 256, m / 256 * 16 + (len - 3)]
  }

  function Grown(t: nat, token: Token): nat {
    if token.Byte? then t + 1 else t + token.len
  }

  /** The bytes of up to k tokens of one group. */
  function GroupBytes(start: nat, t: nat, tokens: seq<Token>, k: nat): seq<byte>
    requires TokensOk(tokens)
    decreases k
  {
    if k == 0 || tokens == [] then []
    else TokenBytes(start, t, tokens[0]) + GroupBytes(start, Grown(t, tokens[0]), tokens[1..], k - 1)
  }

  function GroupGrown(t: nat, tokens: seq<Token>, k: nat): nat
    decreases k
  {
    if k == 0 || tokens == [] then t else GroupGrown(Grown(t, tokens[0]), tokens[1..], k - 1)
  }

  /** Flags of up to k tokens, the first in the lowest bit. */
  function Flags(tokens: seq<Token>, k: nat): nat
    decreases k
  {
    if k == 0 || tokens == [] then 0
    else (if tokens[0].Byte? then 1 else 0) + 2 * Flags(tokens[1..], k - 1)
  }

  lemma {:induction false} FlagsBound(tokens: seq<Token>, k: nat)
    requires k <= 8
    ensures Flags(tokens, k) < Power(k)
    decreases k
  {
    if k > 0 && tokens != [] {
      FlagsBound(tokens[1..], k - 1);
    }
  }

  function Power(k: nat): (r: nat)
    ensures r > 0
  {
    if k == 0 then 1 else 2 * Power(k - 1)
  }

  function EightFlags(tokens: seq<Token>): byte {
    FlagsBound(tokens, 8);
    assert Power(4) == 16 && Power(8) == 256;
    Flags(tokens, 8)
  }

  function Encode(start: nat, t: nat, tokens: seq<Token>): seq<byte>
    requires TokensOk(tokens)
    decreases |tokens|
  {
    if tokens == [] then []
    else
      [EightFlags(tokens)] + GroupBytes(start, t, tokens, 8)
      + Encode(start, GroupGrown(t, tokens, 8), tokens[Min(8, |tokens|)..])
  }

  function GroupMeaning(out: seq<byte>, tokens: seq<Token>, k: nat): seq<byte>
    decreases k
  {
    if k == 0 || tokens == [] then out else GroupMeaning(TokenPut(out, tokens[0]), tokens[1..], k - 1)
  }

  lemma {:induction false} MeaningOfGroup(out: seq<byte>, tokens: seq<Token>, k: nat)
    ensures Meaning(out, tokens) == Meaning(GroupMeaning(out, tokens, k), tokens[Min(k, |tokens|)..])
    decreases k
  {
    if k > 0 && tokens != [] {
      MeaningOfGroup(TokenPut(out, tokens[0]), tokens[1..], k - 1);
      assert tokens[1..][Min(k - 1, |tokens| - 1)..] == tokens[Min(k, |tokens|)..];
    }
  }

  lemma {:induction false} GroupLength(out: seq<byte>, tokens: seq<Token>, k: nat)
    ensures |GroupMeaning(out, tokens, k)| == GroupGrown(|out|, tokens, k)
    decreases k
  {
    if k > 0 && tokens != [] {
      GroupLength(TokenPut(out, tokens[0]), tokens[1..], k - 1);
    }
  }

  lemma NextFlag(control: byte, k: nat)
    requires 1 <= k <= 8
    ensures Power(8 - k) <= 0x80 && Power(8 - (k - 1)) == 2 * Power(8 - k)
    ensures control / Power(8 - (k - 1)) == control / Power(8 - k) / 2
  {
    assert Power(2) == 4 && Power(4) == 16 && Power(6) == 64 && Power(8) == 256;
    assert Power(1) == 2 && Power(3) == 8 && Power(5) == 32 && Power(7) == 128;
    if k == 8 {
      assert control / 2 == control / 1 / 2;
    } else if k == 7 {
      assert control / 4 == control / 2 / 2;
    } else if k == 6 {
      assert control / 8 == control / 4 / 2;
    } else if k == 5 {
      assert control / 16 == control / 8 / 2;
    } else if k == 4 {
      assert control / 32 == control / 16 / 2;
    } else if k == 3 {
      assert control / 64 == control / 32 / 2;
    } else if k == 2 {
      assert control / 128 == control / 64 / 2;
    } else {
      assert control / 256 == control / 128 / 2;
    }
  }

  lemma DistanceOf(start: nat, t: nat, dist: nat)
    requires 1 <= dist <= RING
    ensures Distance(start, t, (start + t + RING - dist) % RING) == dist
  {
  }

  lemma BackItemOf(m: nat, len: nat)
    requires m < RING && 3 <= len <= 18
    ensures BackItem(m % 256, m / 256 * 16 + (len - 3)) == Back(m, len)
  {
  }

  /** The decoder reads a match back as the same distance and length. */
  lemma MatchReadsBack(start: nat, out: seq<byte>, dist: nat, len: nat)
    requires 1 <= dist <= RING && 3 <= len <= 18
    ensures var b := TokenBytes(start, |out|, Match(dist, len));
      |b| == 2 && Put(start, out, BackItem(b[0], b[1])) == CopyFrom(out, dist, len)
  {
    hide Distance, BackItem, CopyFrom;
    var m := (start + |out| + RING - dist) % RING;
    DistanceOf(start, |out|, dist);
    BackItemOf(m, len);
  }

  lemma SplitSuffix(payload: seq<byte>, p: nat, x: seq<byte>, y: seq<byte>)
    requires p <= |payload| && payload[p..] == x + y
    ensures p + |x| <= |payload| && x <= payload[p..] && payload[p + |x|..] == y
  {
    assert payload[p + |x|..] == payload[p..][|x|..];
  }

  /** One token of a group. */
  lemma TokenDecodes(start: nat, out: seq<byte>, token: Token, payload: seq<byte>, p: nat, control: byte, bit: nat)
    requires token.Match? ==> 1 <= token.dist <= RING && 3 <= token.len <= 18
    requires 0 < bit <= 0x80 && control / bit % 2 == (if token.Byte? then 1 else 0)
    requires TokenBytes(start, |out|, token) <= payload[Min(p, |payload|)..]
    ensures Finish(start, out, Items(payload, p, control, bit))
         == Finish(start, TokenPut(out, token), Items(payload, p + |TokenBytes(start, |out|, token)|, control, 2 * bit))
  {
    hide Items, Finish, BackItem, Distance, CopyFrom;
    var b := TokenBytes(start, |out|, token);
    assert forall i :: 0 <= i < |b| ==> payload[p..][i] == b[i];
    if token.Byte? {
      assert payload[p] == b[0];
      LiteralStep(start, out, payload, p, control, bit);
    } else {
      MatchReadsBack(start, out, token.dist, token.len);
      assert payload[p..][0] == b[0] && payload[p..][1] == b[1];
      assert payload[p] == b[0] && payload[p + 1] == b[1];
      BackStep(start, out, payload, p, control, bit);
    }
  }

  lemma GroupStep(start: nat, out: seq<byte>, tokens: seq<Token>, k: nat, tail: seq<byte>)
    requires TokensOk(tokens) && k > 0 && tokens != []
    ensures var b, out' := TokenBytes(start, |out|, tokens[0]), TokenPut(out, tokens[0]);
      && GroupBytes(start, |out|, tokens, k) + tail == b + (GroupBytes(start, |out'|, tokens[1..], k - 1) + tail)
      && |GroupBytes(start, |out|, tokens, k)| == |b| + |GroupBytes(start, |out'|, tokens[1..], k - 1)|
      && GroupMeaning(out, tokens, k) == GroupMeaning(out', tokens[1..], k - 1)
      && Flags(tokens, k) == (if tokens[0].Byte? then 1 else 0) + 2 * Flags(tokens[1..], k - 1)
  {
    hide TokenBytes;
  }

  lemma GroupDone(start: nat, out: seq<byte>, tokens: seq<Token>, k: nat, payload: seq<byte>, p: nat, control: byte,
      tail: seq<byte>)
    requires TokensOk(tokens) && k <= 8 && p <= |payload| && (k == 0 || tokens == [])
    requires payload[p..] == GroupBytes(start, |out|, tokens, k) + tail
    requires |tokens| < k ==> tail == []
    ensures GroupBytes(start, |out|, tokens, k) == [] && GroupMeaning(out, tokens, k) == out
    ensures Finish(start, out, Items(payload, p, control, Power(8 - k)))
        == Finish(start, out, Items(payload, p, control, 0x100))
  {
    hide Items, Finish, Power;
    if k == 0 {
      PowerOfEight();
    } else {
      EndOfPayload(start, out, payload, control, Power(8 - k));
      EndOfPayload(start, out, payload, control, 0x100);
    }
  }

  lemma {:induction false} GroupDecodes(start: nat, out: seq<byte>, tokens: seq<Token>, k: nat,
                                        payload: seq<byte>, p: nat, control: byte, tail: seq<byte>)
    requires TokensOk(tokens) && k <= 8 && p <= |payload|
    requires control / Power(8 - k) == Flags(tokens, k)
    requires payload[p..] == GroupBytes(start, |out|, tokens, k) + tail
    requires |tokens| < k ==> tail == []
    ensures p + |GroupBytes(start, |out|, tokens, k)| <= |payload|
    ensures Finish(start, out, Items(payload, p, control, Power(8 - k)))
         == Finish(start, GroupMeaning(out, tokens, k),
                   Items(payload, p + |GroupBytes(start, |out|, tokens, k)|, control, 0x100))
    decreases k
  {
    hide Items, Finish, TokenBytes, TokenPut, Power, Flags, GroupBytes, GroupMeaning;
    if k == 0 || tokens == [] {
      GroupDone(start, out, tokens, k, payload, p, control, tail);
    } else {
      var b := TokenBytes(start, |out|, tokens[0]);
      var out' := TokenPut(out, tokens[0]);
      GroupStep(start, out, tokens, k, tail);
      NextFlag(control, k);
      SplitSuffix(payload, p, b, GroupBytes(start, |out'|, tokens[1..], k - 1) + tail);
      TokenDecodes(start, out, tokens[0], payload, p, control, Power(8 - k));
      GroupDecodes(start, out', tokens[1..], k - 1, payload, p + |b|, control, tail);
    }
  }

  lemma PowerOfEight()
    ensures Power(8) == 0x100 && Power(0) == 1
  {
    assert Power(4) == 16;
  }

  lemma EncodeStep(start: nat, t: nat, tokens: seq<Token>)
    requires TokensOk(tokens) && tokens != []
    ensures Encode(start, t, tokens)
         == [EightFlags(tokens)]
            + (GroupBytes(start, t, tokens, 8) + Encode(start, GroupGrown(t, tokens, 8), tokens[Min(8, |tokens|)..]))
    ensures EightFlags(tokens) == Flags(tokens, 8)
  {
    hide GroupBytes, Flags, GroupGrown;
  }

  lemma {:induction false} EncodedDecodes(start: nat, out: seq<byte>, tokens: seq<Token>, payload: seq<byte>, p: nat,
      control: byte)
    requires TokensOk(tokens) && p <= |payload|
    requires payload[p..] == Encode(start, |out|, tokens)
    ensures Finish(start, out, Items(payload, p, control, 0x100)) == Some(Meaning(out, tokens))
    decreases |tokens|
  {
    hide Items, Finish, GroupBytes, Flags, GroupMeaning, GroupGrown, EightFlags, Power;
    if tokens == [] {
      EndOfPayload(start, out, payload, control, 0x100);
    } else {
      hide Encode, Meaning;
      var flags := EightFlags(tokens);
      var group := GroupBytes(start, |out|, tokens, 8);
      var rest := tokens[Min(8, |tokens|)..];
      var tail := Encode(start, GroupGrown(|out|, tokens, 8), rest);
      EncodeStep(start, |out|, tokens);
      SplitSuffix(payload, p, [flags], group + tail);
      ControlStep(start, out, payload, p, control, 0x100);
      PowerOfEight();
      EncodeNothing(start, GroupGrown(|out|, tokens, 8));
      GroupDecodes(start, out, tokens, 8, payload, p + 1, flags, tail);
      GroupLength(out, tokens, 8);
      MeaningOfGroup(out, tokens, 8);
      SplitSuffix(payload, p + 1, group, tail);
      EncodedDecodes(start, GroupMeaning(out, tokens, 8), rest, payload, p + 1 + |group|, flags);
    }
  }

  lemma EncodeNothing(start: nat, t: nat)
    ensures Encode(start, t, []) == []
  {
  }

  /**
   For either ring start, decoding the encoded form of any stream of bytes and matches, overlapping matches
   and matches reaching into the initial spaces included, gives what the stream plainly means.
   */
  lemma DecodeInvertsEncode(start: nat, tokens: seq<Token>)
    requires TokensOk(tokens)
    ensures DecodePayload(start, Encode(start, 0, tokens)) == Some(Meaning([], tokens))
  {
    var payload := Encode(start, 0, tokens);
    assert payload[0..] == payload;
    EncodedDecodes(start, [], tokens, payload, 0, 0);
  }

  // ----- files

  lemma {:induction false} CopiedByte(out: seq<byte>, d: nat, n: nat, i: nat)
    requires 1 <= d && |out| <= i < |out| + n
    ensures CopyFrom(out, d, n)[i] == if d <= i then CopyFrom(out, d, n)[i - d] else 0x20
    decreases n
  {
    var next := out + [Behind(out, d)];
    assert next <= CopyFrom(next, d, n - 1);
    if i > |out| {
      CopiedByte(next, d, n - 1, i);
    } else {
      assert CopyFrom(out, d, n)[i] == next[i];
      if d <= i {
        assert CopyFrom(out, d, n)[i - d] == next[i - d] == out[i - d];
      }
    }
  }

  /** A match repeats what lies d bytes before each of its bytes, and spaces where that is before the start. */
  lemma MatchMeans(out: seq<byte>, d: nat, n: nat, i: nat)
    requires 1 <= d && |out| <= i < |out| + n
    ensures var r := TokenPut(out, Match(d, n));
      out <= r && |r| == |out| + n && r[i] == if d <= i then r[i - d] else 0x20
  {
    CopiedByte(out, d, n, i);
  }

  /** The length that an SZDD header gives for the unpacked file. */
  function LengthIn(header: seq<byte>): int
    requires |header| == 14
  {
    (header[10] as int) + 0x100 * (header[11] as int)
    + 0x1_0000 * (header[12] as int) + 0x100_0000 * (header[13] as int)
  }

  /**
   An SZDD file: behind a header of 14 bytes that starts with the letters SZDD, a stream encoded from ring position
   0xFF0 on is unpacked to what it means, cut to the header's length when that is positive and was reached.
   */
  lemma SzddFileUnpacks(header: seq<byte>, tokens: seq<Token>)
    requires |header| == 14 && header[0] == 0x53 && header[1] == 0x5A && header[2] == 0x44 && header[3] == 0x44
    requires TokensOk(tokens)
    ensures var plain, n := Meaning([], tokens), LengthIn(header);
      Decompressed(header + Encode(0xFF0, 0, tokens)) == Some(if 0 < n <= |plain| then plain[..n] else plain)
  {
    hide Encode, Meaning, DecodePayload, FromLE;
    var data := header + Encode(0xFF0, 0, tokens);
    assert data[..4] == header[..4] == [0x53, 0x5A, 0x44, 0x44];
    assert data[14..] == Encode(0xFF0, 0, tokens);
    assert data[10..14] == header[10..14];
    FourBytes(header[10..14]);
    DecodeInvertsEncode(0xFF0, tokens);
  }

  /** A file without such a header: the whole of it is a stream, encoded from ring position 0xFEE on. */
  lemma HeaderlessFileUnpacks(tokens: seq<Token>)
    requires TokensOk(tokens)
    requires var data := Encode(0xFEE, 0, tokens);
      !(|data| >= 14 && data[0] == 0x53 && data[1] == 0x5A && data[2] == 0x44 && data[3] == 0x44)
    ensures Decompressed(Encode(0xFEE, 0, tokens)) == Some(Meaning([], tokens))
  {
    hide Encode, Meaning, DecodePayload, FromLE;
    var data := Encode(0xFEE, 0, tokens);
    if |data| >= 4 {
      assert data[..4] == [data[0], data[1], data[2], data[3]];
    }
    DecodeInvertsEncode(0xFEE, tokens);
  }
}
