/**
 * Tree objects (GitTree.cpp): a list of entries, each written as
 * `mode ' ' path '\0'` followed by the raw bytes of the entry's object id.
 * In memory the id is kept as hex text, so the codec also converts between
 * hex digits and bytes.
 */
module Tree {
  import opened Bytes
  import opened Objects

  /** GitTreeLeaf: a file mode, a path, and the object id as hex text. */
  datatype Leaf = Leaf(mode: bytes, path: bytes, sha: bytes)

  // ---------------------------------------------------------------------
  // Hex digits
  // ---------------------------------------------------------------------

  /** '0'-'9', 'a'-'f' or 'A'-'F'. */
  predicate IsHexDigit(c: byte)
  {
    0x30 <= c <= 0x39 || 0x61 <= c <= 0x66 || 0x41 <= c <= 0x46
  }

  /** '0'-'9' or 'a'-'f'. */
  predicate IsLowerHexDigit(c: byte)
  {
    0x30 <= c <= 0x39 || 0x61 <= c <= 0x66
  }

  predicate AllHex(s: bytes)
  {
    forall i | 0 <= i < |s| :: IsHexDigit(s[i])
  }

  predicate AllLowerHex(s: bytes)
  {
    forall i | 0 <= i < |s| :: IsLowerHexDigit(s[i])
  }

  /**
   * The value of a hex digit. Bytes that are not hex digits read as 0 here;
   * the operations that model `std::stoul` demand hex digits of their callers.
   */
  function DigitValue(c: byte): (v: nat)
    ensures v < 16
  {
    if 0x30 <= c <= 0x39 then c - 0x30
    else if 0x61 <= c <= 0x66 then c - 0x61 + 10
    else if 0x41 <= c <= 0x46 then c - 0x41 + 10
    else 0
  }

  /** The lower-case digit `std::hex` prints for `v`. */
  function LowerDigit(v: nat): (c: byte)
    requires v < 16
    ensures IsLowerHexDigit(c) && DigitValue(c) == v
  {
    if v < 10 then 0x30 + v else 0x61 + v - 10
  }

  /** A lower-case digit is the one `LowerDigit` prints for its value. */
  lemma LowerDigitOfValue(c: byte)
    requires IsLowerHexDigit(c)
    ensures LowerDigit(DigitValue(c)) == c
  {
  }

  /** A byte as `std::hex << std::setw(2) << std::setfill('0')` prints it. */
  function HexPair(b: byte): bytes
  {
    [LowerDigit(b / 16), LowerDigit(b % 16)]
  }

  /** Two lower-case digits are how their value prints. */
  lemma HexPairOfChunk(p: bytes)
    requires |p| == 2 && IsLowerHexDigit(p[0]) && IsLowerHexDigit(p[1])
    ensures HexPair(ChunkValue(p)) == p
  {
    var hi, lo := DigitValue(p[0]), DigitValue(p[1]);
    DivMod16(hi, lo);
    LowerDigitOfValue(p[0]);
    LowerDigitOfValue(p[1]);
  }

  /** A digit value is the lower-case digit's byte read back. */
  lemma PairOfHexPair(b: byte)
    ensures ChunkValue(HexPair(b)) == b
  {
    DivMod16(b / 16, b % 16);
  }

  lemma DivMod16(hi: nat, lo: nat)
    requires hi < 16 && lo < 16
    ensures (16 * hi + lo) / 16 == hi && (16 * hi + lo) % 16 == lo
  {
  }

  /** The hex text tree_parse_one builds from digest bytes, two digits per byte. */
  function HexOf(bs: bytes): bytes
  {
    if bs == [] then [] else HexOf(bs[..|bs| - 1]) + HexPair(bs[|bs| - 1])
  }

  lemma {:induction false} HexOfShape(bs: bytes)
    ensures |HexOf(bs)| == 2 * |bs| && AllLowerHex(HexOf(bs))
    decreases |bs|
  {
    if bs != [] {
      HexOfShape(bs[..|bs| - 1]);
    }
  }

  /** `std::stoul(p, 0, 16)` for one or two hex digits. */
  function ChunkValue(p: bytes): (v: nat)
    requires 1 <= |p| <= 2
    ensures v < 256
  {
    if |p| == 1 then DigitValue(p[0]) else 16 * DigitValue(p[0]) + DigitValue(p[1])
  }

  /** Where the last chunk of two digits (or the lone last digit) of a hex string of length `n` starts. */
  function LastChunk(n: nat): (k: nat)
    requires n > 0
    ensures k % 2 == 0 && k < n <= k + 2
  {
    (n - 1) / 2 * 2
  }

  /**
   * The digest bytes serialize writes for the hex text `sha`: one byte per
   * two digits, and a lone last digit read on its own.
   */
  function ShaBytes(sha: bytes): bytes
    decreases |sha|
  {
    if sha == [] then []
    else
      var k := LastChunk(|sha|);
      ShaBytes(sha[..k]) + [ChunkValue(sha[k..])]
  }

  /** Decoding undoes the hex text tree_parse_one makes. */
  lemma {:induction false} ShaBytesOfHex(bs: bytes)
    ensures AllHex(HexOf(bs)) && ShaBytes(HexOf(bs)) == bs
    decreases |bs|
  {
    HexOfShape(bs);
    if bs != [] {
      var init := bs[..|bs| - 1];
      var h := HexOf(bs);
      ShaBytesOfHex(init);
      HexOfShape(init);
      var k := LastChunk(|h|);
      assert k == |HexOf(init)|;
      assert h[..k] == HexOf(init);
      assert h[k..] == HexPair(bs[|bs| - 1]);
      PairOfHexPair(bs[|bs| - 1]);
      assert bs == init + [bs[|bs| - 1]];
    }
  }

  /** Encoding undoes decoding for lower-case hex text of even length. */
  lemma {:induction false} HexOfShaBytes(sha: bytes)
    requires AllLowerHex(sha) && |sha| % 2 == 0
    ensures AllHex(sha) && HexOf(ShaBytes(sha)) == sha
    decreases |sha|
  {
    if sha != [] {
      var k := LastChunk(|sha|);
      var init, p := sha[..k], sha[k..];
      assert k == |sha| - 2;
      assert AllLowerHex(init) by {
        forall i | 0 <= i < |init| ensures IsLowerHexDigit(init[i]) {
          assert init[i] == sha[i];
        }
      }
      assert p[0] == sha[k] && p[1] == sha[k + 1];
      HexOfShaBytes(init);
      HexPairOfChunk(p);
      var b := ChunkValue(p);
      var bs := ShaBytes(sha);
      assert bs == ShaBytes(init) + [b];
      assert bs[..|bs| - 1] == ShaBytes(init);
      assert sha == init + p;
    }
  }

  lemma {:induction false} ShaBytesLength(sha: bytes)
    requires AllHex(sha)
    ensures |ShaBytes(sha)| == (|sha| + 1) / 2
    decreases |sha|
  {
    if sha != [] {
      ShaBytesLength(sha[..LastChunk(|sha|)]);
    }
  }

  // ---------------------------------------------------------------------
  // serialize
  // ---------------------------------------------------------------------

  /** The bytes serialize writes for one entry. */
  function LeafBytes(l: Leaf): bytes
  {
    l.mode + [SP] + l.path + [NUL] + ShaBytes(l.sha)
  }

  /** Every id is hex text, so `std::stoul` accepts every chunk of it. */
  predicate AllSerializable(items: seq<Leaf>)
  {
    forall i | 0 <= i < |items| :: AllHex(items[i].sha)
  }

  /** The bytes serialize writes for a list of entries, in list order. */
  function TreeBytes(items: seq<Leaf>): bytes
  {
    if items == [] then [] else TreeBytes(items[..|items| - 1]) + LeafBytes(items[|items| - 1])
  }

  /** serialize's inner loop: one byte per two hex digits of `sha`. */
  method AppendDigest(ret: bytes, sha: bytes) returns (r: bytes)
    requires AllHex(sha)
    ensures r == ret + ShaBytes(sha)
  {
    r := ret;
    var j := 0;
    ghost var half := 0;
    while j < |sha|
      invariant j == half + half && j <= |sha| + 1
      invariant r == ret + ShaBytes(sha[..if j < |sha| then j else |sha|])
    {
      var m := if j + 2 < |sha| then j + 2 else |sha|;
      var b := ChunkValue(sha[j..m]);
      ghost var prev := ShaBytes(sha[..j]);
      assert r == ret + prev;
      ShaBytesStep(sha, j, half, m);
      Assoc(ret, prev, [b]);
      r := r + [b];
      assert r == ret + ShaBytes(sha[..m]);
      j := j + 2;
      half := half + 1;
    }
    assert sha[..|sha|] == sha;
  }

  /** The digest of a prefix grows by one byte per chunk. */
  lemma ShaBytesStep(sha: bytes, j: nat, half: nat, m: nat)
    requires j == half + half && j < m <= |sha| && m == (if j + 2 < |sha| then j + 2 else |sha|)
    ensures ShaBytes(sha[..m]) == ShaBytes(sha[..j]) + [ChunkValue(sha[j..m])]
  {
    assert LastChunk(|sha[..m]|) == j;
    assert sha[..m][..j] == sha[..j] && sha[..m][j..] == sha[j..m];
  }

  // ---------------------------------------------------------------------
  // tree_parse_one / tree_parse
  // ---------------------------------------------------------------------

  /** The outcome of tree_parse_one: the exception, or the next position and the entry read. */
  datatype Step = NotATree | Step(next: nat, leaf: Leaf)

  /**
   * tree_parse_one at `start`: the mode runs to the first space, the path
   * from after it to the next NUL, and then up to 20 digest bytes follow,
   * fewer when the buffer ends first.
   */
  function ParseOne(raw: bytes, start: nat): (r: Step)
    requires start <= |raw|
    ensures r.Step? ==> start < r.next <= |raw|
  {
    match Find(raw, SP, start)
    case None => NotATree
    case Some(sp) =>
      match Find(raw, NUL, sp)
      case None => NotATree
      case Some(z) =>
        var e := if z + 1 + 20 < |raw| then z + 1 + 20 else |raw|;
        Step(e, Leaf(raw[start..sp], raw[sp + 1..z], HexOf(raw[z + 1..e])))
  }

  /** tree_parse from `pos` with the entries `acc` already read; `None` is the exception. */
  function ParseFrom(raw: bytes, pos: nat, acc: seq<Leaf>): Option<seq<Leaf>>
    requires pos <= |raw|
    decreases |raw| - pos
  {
    if pos == |raw| then Some(acc)
    else
      match ParseOne(raw, pos)
      case NotATree => None
      case Step(n, l) => ParseFrom(raw, n, acc + [l])
  }

  /** tree_parse. */
  function Parse(raw: bytes): Option<seq<Leaf>>
  {
    ParseFrom(raw, 0, [])
  }

  /** tree_parse_one. */
  method TreeParseOne(raw: bytes, start: nat) returns (r: Step)
    requires start <= |raw|
    ensures r == ParseOne(raw, start)
  {
    var it1 := Find(raw, SP, start);
    if it1.None? {
      return NotATree;
    }
    var count := it1.value - start;
    var mode := raw[start..it1.value];
    var it2 := Find(raw, NUL, it1.value);
    if it2.None? {
      return NotATree;
    }
    var path := raw[it1.value + 1..it2.value];
    var p := it2.value + 1;
    var hexDigits: bytes := [];
    var j := 0;
    while j < 20 && p != |raw|
      invariant it2.value + 1 <= p <= |raw| && j == p - (it2.value + 1) <= 20
      invariant hexDigits == HexOf(raw[it2.value + 1..p])
    {
      hexDigits := hexDigits + HexPair(raw[p]);
      HexOfStep(raw, it2.value + 1, p);
      p := p + 1;
      j := j + 1;
    }
    count := count + (p - it1.value);
    r := Step(start + count, Leaf(mode, path, hexDigits));
  }

  lemma HexOfStep(raw: bytes, a: nat, p: nat)
    requires a <= p < |raw|
    ensures HexOf(raw[a..p + 1]) == HexOf(raw[a..p]) + HexPair(raw[p])
  {
    assert raw[a..p + 1][..p - a] == raw[a..p];
  }

  /** tree_parse: reads entries until the position reaches the end of the buffer. */
  method TreeParse(raw: bytes) returns (r: Option<seq<Leaf>>)
    ensures r == Parse(raw)
  {
    var pos := 0;
    var ret: seq<Leaf> := [];
    while pos < |raw|
      invariant pos <= |raw|
      invariant ParseFrom(raw, pos, ret) == Parse(raw)
      decreases |raw| - pos
    {
      var st := TreeParseOne(raw, pos);
      if st.NotATree? {
        return None;
      }
      ret := ret + [st.leaf];
      pos := st.next;
    }
    r := Some(ret);
  }

  // ---------------------------------------------------------------------
  // Properties of the parser
  // ---------------------------------------------------------------------

  /**
   * tree_parse_one fails exactly when no space follows `start`, or no NUL
   * follows the first such space.
   */
  lemma ParseOneFails(raw: bytes, start: nat)
    requires start <= |raw|
    ensures ParseOne(raw, start).NotATree? <==>
              || (forall k | start <= k < |raw| :: raw[k] != SP)
              || (exists sp | start <= sp < |raw| && raw[sp] == SP ::
                    && (forall k | start <= k < sp :: raw[k] != SP)
                    && (forall k | sp <= k < |raw| :: raw[k] != NUL))
  {
    FindFirstOccurrence(raw, SP, start);
    var s := Find(raw, SP, start);
    if s.Some? {
      FindFirstOccurrence(raw, NUL, s.value);
      var sp := s.value;
      if Find(raw, NUL, sp).None? {
        assert start <= sp < |raw| && raw[sp] == SP;
      }
      forall sp' | start <= sp' < |raw| && raw[sp'] == SP && (forall k | start <= k < sp' :: raw[k] != SP)
        ensures sp' == sp
      {
        assert raw[sp] == SP;
      }
    }
  }

  /**
   * An entry tree_parse_one reads: its mode has no space, its path no NUL,
   * its id is the lower-case hex of the at most 20 bytes after the NUL, and
   * the next position is just past those bytes.
   */
  lemma ParseOneEntry(raw: bytes, start: nat)
    requires start <= |raw| && ParseOne(raw, start).Step?
    ensures var r := ParseOne(raw, start); var l := r.leaf;
            && (forall i | 0 <= i < |l.mode| :: l.mode[i] != SP)
            && (forall i | 0 <= i < |l.path| :: l.path[i] != NUL)
            && raw[start..start + |l.mode|] == l.mode
            && raw[start + |l.mode|] == SP
            && raw[start + |l.mode| + 1..start + |l.mode| + 1 + |l.path|] == l.path
            && raw[start + |l.mode| + 1 + |l.path|] == NUL
            && var d := start + |l.mode| + 1 + |l.path| + 1;
               && |l.sha| == 2 * (r.next - d)
               && r.next == (if d + 20 < |raw| then d + 20 else |raw|)
               && l.sha == HexOf(raw[d..r.next])
               && AllLowerHex(l.sha)
  {
    var sp := Find(raw, SP, start).value;
    FindFirstOccurrence(raw, SP, start);
    var z := Find(raw, NUL, sp).value;
    FindFirstOccurrence(raw, NUL, sp);
    var r := ParseOne(raw, start);
    HexOfShape(raw[z + 1..r.next]);
  }

  /** The entry tree_parse_one reads is exactly the bytes it consumed, as serialize writes them. */
  lemma ParseOneBytes(raw: bytes, start: nat)
    requires start <= |raw| && ParseOne(raw, start).Step?
    ensures var r := ParseOne(raw, start);
            AllHex(r.leaf.sha) && LeafBytes(r.leaf) == raw[start..r.next]
  {
    var sp := Find(raw, SP, start).value;
    var z := Find(raw, NUL, sp).value;
    var r := ParseOne(raw, start);
    assert z != sp;
    ShaBytesOfHex(raw[z + 1..r.next]);
    Pieces(raw, start, sp, z, r.next);
  }

  /** A slice cut at two single elements. */
  lemma Pieces<T>(s: seq<T>, a: nat, sp: nat, z: nat, e: nat)
    requires a <= sp < z < e <= |s|
    ensures s[a..e] == s[a..sp] + [s[sp]] + s[sp + 1..z] + [s[z]] + s[z + 1..e]
  {
    assert s[a..e] == s[a..sp] + s[sp..e];
    assert s[sp..e] == [s[sp]] + s[sp + 1..e];
    assert s[sp + 1..e] == s[sp + 1..z] + s[z..e];
    assert s[z..e] == [s[z]] + s[z + 1..e];
  }

  lemma TreeBytesSnoc(acc: seq<Leaf>, l: Leaf)
    ensures TreeBytes(acc + [l]) == TreeBytes(acc) + LeafBytes(l)
  {
    assert (acc + [l])[..|acc|] == acc;
  }

  lemma SerializableSnoc(acc: seq<Leaf>, l: Leaf)
    requires AllSerializable(acc) && AllHex(l.sha)
    ensures AllSerializable(acc + [l])
  {
    forall i | 0 <= i < |acc| + 1
      ensures AllHex((acc + [l])[i].sha)
    {
      if i < |acc| {
        assert (acc + [l])[i] == acc[i];
      }
    }
  }

  lemma TreeBytesPrefix(items: seq<Leaf>, k: nat)
    requires k < |items|
    ensures TreeBytes(items[..k + 1]) == TreeBytes(items[..k]) + LeafBytes(items[k])
  {
    assert items[..k + 1][..k] == items[..k];
  }

  /** Whatever tree_parse reads, serialize writes back byte for byte. */
  lemma {:induction false} ParseFromReserializes(raw: bytes, pos: nat, acc: seq<Leaf>)
    requires pos <= |raw| && AllSerializable(acc) && ParseFrom(raw, pos, acc).Some?
    ensures AllSerializable(ParseFrom(raw, pos, acc).value)
    ensures TreeBytes(ParseFrom(raw, pos, acc).value) == TreeBytes(acc) + raw[pos..]
    decreases |raw| - pos
  {
    if pos < |raw| {
      var r := ParseOne(raw, pos);
      ParseOneBytes(raw, pos);
      TreeBytesSnoc(acc, r.leaf);
      SerializableSnoc(acc, r.leaf);
      ParseFromReserializes(raw, r.next, acc + [r.leaf]);
      Assoc(TreeBytes(acc), raw[pos..r.next], raw[r.next..]);
      assert raw[pos..] == raw[pos..r.next] + raw[r.next..];
    } else {
      assert raw[pos..] == [];
    }
  }

  lemma ParseReserializes(raw: bytes)
    requires Parse(raw).Some?
    ensures AllSerializable(Parse(raw).value) && TreeBytes(Parse(raw).value) == raw
  {
    ParseFromReserializes(raw, 0, []);
    assert raw[0..] == raw;
  }

  // ---------------------------------------------------------------------
  // Serialized entries parse back
  // ---------------------------------------------------------------------

  /** An entry serialize and tree_parse agree on: no space in the mode, no NUL in the path, a 40-digit lower-case id. */
  predicate WellFormedLeaf(l: Leaf)
  {
    && (forall i | 0 <= i < |l.mode| :: l.mode[i] != SP)
    && (forall i | 0 <= i < |l.path| :: l.path[i] != NUL)
    && |l.sha| == 40 && AllLowerHex(l.sha)
  }

  predicate WellFormed(items: seq<Leaf>)
  {
    forall i | 0 <= i < |items| :: WellFormedLeaf(items[i])
  }

  /** tree_parse_one reads back a well-formed entry from wherever serialize wrote it. */
  lemma ParseOneLeaf(raw: bytes, start: nat, l: Leaf)
    requires WellFormedLeaf(l)
    requires start + |LeafBytes(l)| <= |raw| && raw[start..start + |LeafBytes(l)|] == LeafBytes(l)
    ensures ParseOne(raw, start) == Step(start + |LeafBytes(l)|, l)
  {
    HexOfShaBytes(l.sha);
    ShaBytesLength(l.sha);
    ParseOneOf(raw, start, l.mode, l.path, ShaBytes(l.sha));
  }

  /** tree_parse_one on a mode, a space, a path, a NUL and 20 digest bytes. */
  lemma ParseOneOf(raw: bytes, start: nat, mode: bytes, path: bytes, digest: bytes)
    requires (forall i | 0 <= i < |mode| :: mode[i] != SP) && (forall i | 0 <= i < |path| :: path[i] != NUL)
    requires |digest| == 20
    requires start + |mode| + |path| + 22 <= |raw|
    requires raw[start..start + |mode| + |path| + 22] == mode + [SP] + path + [NUL] + digest
    ensures ParseOne(raw, start) == Step(start + |mode| + |path| + 22, Leaf(mode, path, HexOf(digest)))
  {
    var sp := start + |mode|;
    var z := sp + 1 + |path|;
    PiecesOf(raw, start, mode, SP, path, NUL, digest);
    FindAfter(raw, SP, start, mode);
    FindAfter(raw, NUL, sp + 1, path);
    assert Find(raw, NUL, sp) == Find(raw, NUL, sp + 1);
    ParseOneDef(raw, start, sp, z, z + 21);
  }

  /** ParseOne once both searches have succeeded. */
  lemma ParseOneDef(raw: bytes, start: nat, sp: nat, z: nat, e: nat)
    requires start <= |raw| && Find(raw, SP, start) == Some(sp) && Find(raw, NUL, sp) == Some(z)
    requires e == if z + 1 + 20 < |raw| then z + 1 + 20 else |raw|
    ensures ParseOne(raw, start) == Step(e, Leaf(raw[start..sp], raw[sp + 1..z], HexOf(raw[z + 1..e])))
  {
  }

  /** The parts of a slice that holds `m`, `p`, `q`, `t`, `w` one after another. */
  lemma PiecesOf<T>(s: seq<T>, a: nat, m: seq<T>, p: T, q: seq<T>, t: T, w: seq<T>)
    requires a + |m| + |q| + |w| + 2 <= |s|
    requires s[a..a + |m| + |q| + |w| + 2] == m + [p] + q + [t] + w
    ensures s[a..a + |m|] == m && s[a + |m|] == p
    ensures s[a + |m| + 1..a + |m| + 1 + |q|] == q && s[a + |m| + 1 + |q|] == t
    ensures s[a + |m| + |q| + 2..a + |m| + |q| + |w| + 2] == w
  {
    var x := s[a..a + |m| + |q| + |w| + 2];
    var y := m + [p] + q;
    assert x == y + [t] + w;
    assert x[..|y|] == y && x[|y|] == t && x[|y| + 1..] == w;
    assert y[..|m|] == m && y[|m|] == p && y[|m| + 1..] == q;
    assert s[a..a + |m|] == x[..|m|] == y[..|m|];
    assert x[|m| + 1..|y|] == x[..|y|][|m| + 1..] == q;
    SliceShift(s, a, a + |m| + |q| + |w| + 2, |m| + 1, |m| + 1 + |q|);
    assert s[a + |m| + |q| + 2..a + |m| + |q| + |w| + 2] == x[|y| + 1..];
  }

  lemma SliceShift<T>(s: seq<T>, a: nat, b: nat, i: nat, j: nat)
    requires a <= b <= |s| && i <= j <= b - a
    ensures s[a..b][i..j] == s[a + i..a + j]
  {
    forall k | 0 <= k < j - i
      ensures s[a..b][i..j][k] == s[a + i..a + j][k]
    {
      assert s[a..b][i + k] == s[a + i + k];
    }
  }


  lemma {:induction false} TreeBytesAppend(a: seq<Leaf>, b: seq<Leaf>)
    ensures TreeBytes(a + b) == TreeBytes(a) + TreeBytes(b)
    decreases |b|
  {
    if b != [] {
      var init := b[..|b| - 1];
      TreeBytesAppend(a, init);
      assert (a + b)[..|a + b| - 1] == a + init;
      Assoc(TreeBytes(a), TreeBytes(init), LeafBytes(b[|b| - 1]));
    } else {
      assert a + b == a;
    }
  }

  lemma WellFormedSerializable(items: seq<Leaf>)
    requires WellFormed(items)
    ensures AllSerializable(items)
  {
    forall i | 0 <= i < |items|
      ensures AllHex(items[i].sha)
    {
      assert WellFormedLeaf(items[i]);
    }
  }

  /** The bytes of a non-empty list: its first entry's bytes, then the rest's. */
  lemma TreeBytesCons(items: seq<Leaf>)
    requires |items| > 0
    ensures TreeBytes(items) == LeafBytes(items[0]) + TreeBytes(items[1..])
  {
    var l, rest := items[0], items[1..];
    assert items == [l] + rest;
    TreeBytesAppend([l], rest);
    TreeBytesOne(l);
  }

  lemma TreeBytesOne(l: Leaf)
    ensures TreeBytes([l]) == LeafBytes(l)
  {
    assert [l][..0] == [];
  }

  /** tree_parse reads well-formed entries back, in order, from where serialize wrote them. */
  lemma {:induction false} ParseFromSuffix(raw: bytes, pos: nat, acc: seq<Leaf>, items: seq<Leaf>)
    requires WellFormed(items) && pos <= |raw|
    requires raw[pos..] == TreeBytes(items)
    ensures ParseFrom(raw, pos, acc) == Some(acc + items)
    decreases |items|
  {
    if items == [] {
      ParseFromEnd(raw, pos, acc);
    } else {
      var n := SuffixStep(raw, pos, items);
      ParseFromStep(raw, pos, acc, n, items[0]);
      ParseFromSuffix(raw, n, acc + [items[0]], items[1..]);
      ConsRest(acc, items);
    }
  }

  lemma ParseFromEnd(raw: bytes, pos: nat, acc: seq<Leaf>)
    requires pos <= |raw| && raw[pos..] == []
    ensures ParseFrom(raw, pos, acc) == Some(acc + [])
  {
    assert |raw[pos..]| == 0;
    assert acc + [] == acc;
  }

  /** The first of the well-formed entries at `pos` is read, and the rest follow it. */
  lemma SuffixStep(raw: bytes, pos: nat, items: seq<Leaf>) returns (n: nat)
    requires WellFormed(items) && pos <= |raw| && |items| > 0
    requires raw[pos..] == TreeBytes(items)
    ensures pos < n <= |raw| && ParseOne(raw, pos) == Step(n, items[0])
    ensures WellFormed(items[1..]) && raw[n..] == TreeBytes(items[1..])
  {
    var l, rest := items[0], items[1..];
    TreeBytesCons(items);
    WellFormedCons(items);
    var more := TreeBytes(rest);
    assert raw[pos..] == LeafBytes(l) + more;
    ParseOneFront(raw, pos, l, more);
    n := pos + |LeafBytes(l)|;
  }

  lemma WellFormedCons(items: seq<Leaf>)
    requires WellFormed(items) && |items| > 0
    ensures WellFormedLeaf(items[0]) && WellFormed(items[1..])
  {
    forall i | 0 <= i < |items| - 1
      ensures WellFormedLeaf(items[1..][i])
    {
      assert items[1..][i] == items[i + 1];
    }
  }

  /** tree_parse_one reads a well-formed entry off the front of the rest of the buffer. */
  lemma ParseOneFront(raw: bytes, pos: nat, l: Leaf, more: bytes)
    requires WellFormedLeaf(l) && pos <= |raw| && raw[pos..] == LeafBytes(l) + more
    ensures pos + |LeafBytes(l)| <= |raw|
    ensures ParseOne(raw, pos) == Step(pos + |LeafBytes(l)|, l)
    ensures raw[pos + |LeafBytes(l)|..] == more
  {
    var lb := LeafBytes(l);
    var tail := raw[pos..];
    assert raw[pos..pos + |lb|] == tail[..|lb|] == lb;
    ParseOneLeaf(raw, pos, l);
    assert raw[pos + |lb|..] == tail[|lb|..] == more;
  }

  lemma ConsRest<T>(acc: seq<T>, items: seq<T>)
    requires |items| > 0
    ensures acc + [items[0]] + items[1..] == acc + items
  {
    assert items == [items[0]] + items[1..];
  }

  /** One step of tree_parse. */
  lemma ParseFromStep(raw: bytes, pos: nat, acc: seq<Leaf>, n: nat, l: Leaf)
    requires pos < |raw| && ParseOne(raw, pos) == Step(n, l)
    ensures ParseFrom(raw, pos, acc) == ParseFrom(raw, n, acc + [l])
  {
  }

  /** Well-formed entries survive serialize followed by tree_parse unchanged and in order. */
  lemma ParseTreeBytes(items: seq<Leaf>)
    requires WellFormed(items)
    ensures AllSerializable(items) && Parse(TreeBytes(items)) == Some(items)
  {
    WellFormedSerializable(items);
    var raw := TreeBytes(items);
    assert raw[0..] == raw;
    ParseFromSuffix(raw, 0, [], items);
    assert [] + items == items;
  }

  // ---------------------------------------------------------------------
  // The object
  // ---------------------------------------------------------------------

  /** A tree object: its format tag and its entry list (`m_items`). */
  class Tree {
    const kind: Kind
    var items: seq<Leaf>

    constructor ()
      ensures kind == TreeKind && Format(kind) == Ascii("tree")
      ensures items == []
    {
      kind := TreeKind;
      items := [];
    }

    /** serialize: each entry's mode, a space, its path, a NUL, then its id as raw bytes. */
    method Serialize() returns (ret: bytes)
      requires AllSerializable(items)
      ensures ret == TreeBytes(items)
    {
      ret := [];
      var k := 0;
      while k < |items|
        invariant k <= |items|
        invariant ret == TreeBytes(items[..k])
      {
        var i := items[k];
        assert AllHex(i.sha);
        ghost var pre := ret;
        ret := ret + i.mode;
        ret := ret + [SP];
        ret := ret + i.path;
        ret := ret + [NUL];
        ret := AppendDigest(ret, i.sha);
        LeafAppend(pre, i);
        TreeBytesPrefix(items, k);
        k := k + 1;
      }
      assert items[..k] == items;
    }

    /**
     * deserialize: replaces the entry list with what tree_parse reads;
     * when tree_parse throws, the exception leaves the list as it was.
     */
    method Deserialize(data: bytes) returns (ok: bool)
      modifies this
      ensures ok <==> Parse(data).Some?
      ensures ok ==> items == Parse(data).value
      ensures !ok ==> items == old(items)
      ensures ok ==> AllSerializable(items) && TreeBytes(items) == data
    {
      var r := TreeParse(data);
      if r.None? {
        return false;
      }
      ParseReserializes(data);
      items := r.value;
      ok := true;
    }

    /** get_items. */
    method GetItems() returns (r: seq<Leaf>)
      ensures r == items
    {
      r := items;
    }
  }

  lemma LeafAppend(pre: bytes, l: Leaf)
    ensures pre + l.mode + [SP] + l.path + [NUL] + ShaBytes(l.sha) == pre + LeafBytes(l)
  {
  }
}
