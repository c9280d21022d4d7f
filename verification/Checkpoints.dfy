/**
 The checkpoint artifact: a length-prefixed printer and a bounds-checked parser that
 verifies a content hash. The hash function is a parameter.
 */
module Checkpoints {
  import opened Basics
  import Utf8

  type Bytes = seq<byte>

  type Hash = Bytes -> Id

  const TWO64: nat := 0x1_0000_0000_0000_0000
  const MAGIC: Bytes := [77, 65, 69, 75, 66, 49, 10] // "MAEKB1\n"

  datatype Checkpoint = Checkpoint(kbId: Id, collectionState: Bytes, nodes: seq<(Id, Bytes)>, contentHash: Id)

  datatype ParseError = BadMagic | Overflow | Truncated | InvalidUtf8 | HashMismatch

  // ---- Little-endian lengths ----

  /** The low `k` bytes of `n`, least significant first. */
  function LeBytes(n: nat, k: nat): (out: Bytes)
    ensures |out| == k
  {
    if k == 0 then [] else [n % 256] + LeBytes(n / 256, k - 1)
  }

  function FromLe(b: Bytes): nat {
    if b == [] then 0 else b[0] + 256 * FromLe(b[1..])
  }

  function Pow256(k: nat): nat {
    if k == 0 then 1 else 256 * Pow256(k - 1)
  }

  lemma {:induction false} LeRoundTrip(n: nat, k: nat)
    requires n < Pow256(k)
    ensures FromLe(LeBytes(n, k)) == n
  {
    if k > 0 {
      LeRoundTrip(n / 256, k - 1);
      assert LeBytes(n, k)[1..] == LeBytes(n / 256, k - 1);
    }
  }

  lemma {:induction false} FromLeInverse(b: Bytes)
    ensures FromLe(b) < Pow256(|b|)
    ensures LeBytes(FromLe(b), |b|) == b
  {
    if b != [] {
      FromLeInverse(b[1..]);
      assert FromLe(b) % 256 == b[0] && FromLe(b) / 256 == FromLe(b[1..]);
      assert b == [b[0]] + b[1..];
    }
  }

  /** Byte `i` is the one of weight 256 to the `i`. */
  lemma {:induction false} LeByteAt(n: nat, k: nat, i: nat)
    requires i < k
    ensures Pow256(i) > 0 && LeBytes(n, k)[i] == (n / Pow256(i)) % 256
  {
    if i > 0 {
      LeByteAt(n / 256, k - 1, i - 1);
      DivideTwice(n, Pow256(i - 1));
    }
  }

  lemma DivideTwice(n: nat, p: nat)
    requires p > 0
    ensures (n / 256) / p == n / (256 * p)
  {
    var q := (n / 256) / p;
    var r := n - q * (256 * p);
    assert n == 256 * (n / 256) + n % 256;
    assert n / 256 == p * q + (n / 256) % p;
    assert r == 256 * ((n / 256) % p) + n % 256;
    assert 0 <= r < 256 * p;
    QuotientIs(n, 256 * p, q, r);
  }

  lemma QuotientIs(n: nat, d: nat, q: nat, r: nat)
    requires d > 0 && n == q * d + r && r < d
    ensures n / d == q
  {
    var diff := n / d - q;
    assert diff * d == r - n % d;
    assert -(d as int) < diff * d < d;
    SmallMultiple(diff, d);
  }

  lemma SmallMultiple(k: int, d: int)
    requires -d < k * d < d
    ensures k == 0
  {
    assert k >= 1 ==> k * d >= d;
    assert k <= -1 ==> k * d <= -d;
  }

  lemma Pow256Of8()
    ensures Pow256(8) == TWO64
  {
    assert Pow256(4) == 0x1_0000_0000;
    assert Pow256(5) == 0x100_0000_0000;
    assert Pow256(6) == 0x1_0000_0000_0000;
    assert Pow256(7) == 0x100_0000_0000_0000;
  }

  function Le64(n: nat): (out: Bytes)
    ensures |out| == 8
  {
    LeBytes(n, 8)
  }

  lemma Le64Exact(b: Bytes, n: nat)
    requires |b| == 8
    ensures (b == Le64(n) && n < TWO64) <==> FromLe(b) == n
  {
    Pow256Of8();
    FromLeInverse(b);
    if n < TWO64 {
      LeRoundTrip(n, 8);
    }
  }

  // ---- Printing ----

  function Field(b: Bytes): Bytes {
    Le64(|b|) + b
  }

  function PrintNodes(nodes: seq<(Id, Bytes)>): Bytes {
    if nodes == [] then []
    else Field(nodes[0].0) + Field(nodes[0].1) + PrintNodes(nodes[1..])
  }

  function Print(cp: Checkpoint): Bytes {
    MAGIC + (Field(cp.kbId) + (Field(cp.contentHash) + (Field(cp.collectionState)
                                                        + (Le64(|cp.nodes|) + PrintNodes(cp.nodes)))))
  }

  /** The byte stream fed to the hash. */
  function Frame(kbId: Id, collectionState: Bytes, nodes: seq<(Id, Bytes)>): Bytes {
    Field(kbId) + (Field(collectionState) + (Le64(|nodes|) + PrintNodes(nodes)))
  }

  predicate NodesSized(nodes: seq<(Id, Bytes)>) {
    |nodes| < TWO64 && forall i :: 0 <= i < |nodes| ==> |nodes[i].0| < TWO64 && |nodes[i].1| < TWO64
  }

  /** Node ids are strings. */
  predicate NodesValid(nodes: seq<(Id, Bytes)>) {
    forall i :: 0 <= i < |nodes| ==> Utf8.Valid(nodes[i].0)
  }

  /** A checkpoint the program can hold, with the hash of its own contents. */
  predicate Good(hash: Hash, cp: Checkpoint) {
    && |cp.kbId| < TWO64 && |cp.contentHash| < TWO64 && |cp.collectionState| < TWO64 && NodesSized(cp.nodes)
    && Utf8.Valid(cp.kbId) && Utf8.Valid(cp.contentHash) && NodesValid(cp.nodes)
    && cp.contentHash == hash(Frame(cp.kbId, cp.collectionState, cp.nodes))
  }

  method WriteBytes(out: Bytes, b: Bytes) returns (out': Bytes)
    ensures out' == out + Field(b)
  {
    out' := out + Le64(|b|);
    out' := out' + b;
  }

  method ToBytes(cp: Checkpoint) returns (out: Bytes)
    ensures out == Print(cp)
  {
    hide Field, Le64;
    out := MAGIC;
    out := WriteBytes(out, cp.kbId);
    out := WriteBytes(out, cp.contentHash);
    out := WriteBytes(out, cp.collectionState);
    out := out + Le64(|cp.nodes|);
    ghost var header := out;
    var i := 0;
    while i < |cp.nodes|
      invariant 0 <= i <= |cp.nodes|
      invariant out + PrintNodes(cp.nodes[i..]) == header + PrintNodes(cp.nodes)
    {
      var (id, state) := cp.nodes[i];
      assert cp.nodes[i..][1..] == cp.nodes[i + 1..];
      out := WriteBytes(out, id);
      out := WriteBytes(out, state);
      i := i + 1;
    }
    assert cp.nodes[i..] == [] && out == header + PrintNodes(cp.nodes);
    assert out == Print(cp);
  }

  // ---- Parsing ----

  /** `x` sits in `buf` at `pos`. */
  predicate At(buf: Bytes, pos: nat, x: Bytes) {
    pos + |x| <= |buf| && buf[pos..pos + |x|] == x
  }

  function TakeAt(buf: Bytes, pos: nat, n: nat): Result<Bytes, ParseError> {
    if pos + n >= TWO64 then Err(Overflow)
    else if pos + n > |buf| then Err(Truncated)
    else Ok(buf[pos..pos + n])
  }

  function U64At(buf: Bytes, pos: nat): Result<nat, ParseError> {
    match TakeAt(buf, pos, 8)
    case Err(e) => Err(e)
    case Ok(b) => Ok(FromLe(b))
  }

  function BytesAt(buf: Bytes, pos: nat): Result<Bytes, ParseError> {
    match U64At(buf, pos)
    case Err(e) => Err(e)
    case Ok(n) => TakeAt(buf, pos + 8, n)
  }

  function StringAt(buf: Bytes, pos: nat): Result<Id, ParseError> {
    match BytesAt(buf, pos)
    case Err(e) => Err(e)
    case Ok(b) => if Utf8.Valid(b) then Ok(b) else Err(InvalidUtf8)
  }

  /** `n` nodes from `pos` on, and where they end. */
  function NodesAt(buf: Bytes, pos: nat, n: nat): Result<(seq<(Id, Bytes)>, nat), ParseError>
    decreases n
  {
    if n == 0 then Ok(([], pos))
    else
      match StringAt(buf, pos)
      case Err(e) => Err(e)
      case Ok(id) =>
        match BytesAt(buf, pos + 8 + |id|)
        case Err(e) => Err(e)
        case Ok(state) =>
          match NodesAt(buf, pos + 16 + |id| + |state|, n - 1)
          case Err(e) => Err(e)
          case Ok(rest) => Ok(([(id, state)] + rest.0, rest.1))
  }

  function Parse(hash: Hash, buf: Bytes): Result<Checkpoint, ParseError> {
    match TakeAt(buf, 0, |MAGIC|)
    case Err(e) => Err(e)
    case Ok(magic) =>
      if magic != MAGIC then Err(BadMagic) else
      match StringAt(buf, 7)
      case Err(e) => Err(e)
      case Ok(kbId) =>
        var p1 := 15 + |kbId|;
        match StringAt(buf, p1)
        case Err(e) => Err(e)
        case Ok(contentHash) =>
          var p2 := p1 + 8 + |contentHash|;
          match BytesAt(buf, p2)
          case Err(e) => Err(e)
          case Ok(collectionState) =>
            var p3 := p2 + 8 + |collectionState|;
            match U64At(buf, p3)
            case Err(e) => Err(e)
            case Ok(n) =>
              match NodesAt(buf, p3 + 8, n)
              case Err(e) => Err(e)
              case Ok(nodes) =>
                if hash(Frame(kbId, collectionState, nodes.0)) != contentHash then Err(HashMismatch)
                else Ok(Checkpoint(kbId, collectionState, nodes.0, contentHash))
  }

  /** The bounds-checked cursor. */
  class Reader {
    const buf: Bytes
    var pos: nat

    constructor (buf: Bytes)
      ensures this.buf == buf && pos == 0
    {
      this.buf := buf;
      pos := 0;
    }

    method Take(n: nat) returns (r: Result<Bytes, ParseError>)
      modifies this
      ensures r == TakeAt(buf, old(pos), n)
      ensures pos == old(pos) + if r.Ok? then n else 0
    {
      if pos + n >= TWO64 {
        return Err(Overflow);
      }
      if pos + n > |buf| {
        return Err(Truncated);
      }
      r := Ok(buf[pos..pos + n]);
      pos := pos + n;
    }

    method ReadU64() returns (r: Result<nat, ParseError>)
      modifies this
      ensures r == U64At(buf, old(pos))
      ensures r.Ok? ==> pos == old(pos) + 8
    {
      var b := Take(8);
      r := match b case Ok(b) => Ok(FromLe(b)) case Err(e) => Err(e);
    }

    method ReadBytes() returns (r: Result<Bytes, ParseError>)
      modifies this
      ensures r == BytesAt(buf, old(pos))
      ensures r.Ok? ==> pos == old(pos) + 8 + |r.value|
    {
      var n := ReadU64();
      if n.Err? {
        return Err(n.error);
      }
      r := Take(n.value);
    }

    method ReadString() returns (r: Result<Id, ParseError>)
      modifies this
      ensures r == StringAt(buf, old(pos))
      ensures r.Ok? ==> pos == old(pos) + 8 + |r.value|
    {
      r := ReadBytes();
      if r.Ok? && !Utf8.Valid(r.value) {
        r := Err(InvalidUtf8);
      }
    }

    /** The node loop of the parser. */
    method ReadNodes(n: nat) returns (r: Result<seq<(Id, Bytes)>, ParseError>)
      modifies this
      ensures NodesAt(buf, old(pos), n).Ok? ==> r == Ok(NodesAt(buf, old(pos), n).value.0)
      ensures NodesAt(buf, old(pos), n).Err? ==> r == Err(NodesAt(buf, old(pos), n).error)
    {
      hide StringAt, BytesAt;
      var nodes: seq<(Id, Bytes)> := [];
      var i := 0;
      ghost var whole := NodesAt(buf, pos, n);
      while i < n
        invariant 0 <= i <= n
        invariant var rest := NodesAt(buf, pos, n - i);
                  && (whole.Ok? <==> rest.Ok?)
                  && (whole.Ok? ==> whole.value.0 == nodes + rest.value.0)
                  && (whole.Err? ==> whole.error == rest.error)
      {
        var id := ReadString();
        if id.Err? {
          return Err(id.error);
        }
        var state := ReadBytes();
        if state.Err? {
          return Err(state.error);
        }
        nodes := nodes + [(id.value, state.value)];
        i := i + 1;
      }
      assert nodes + [] == nodes;
      r := Ok(nodes);
    }
  }

  /** Parse an artifact and verify its integrity. */
  method FromBytes(hash: Hash, buf: Bytes) returns (r: Result<Checkpoint, ParseError>)
    ensures r == Parse(hash, buf)
  {
    hide TakeAt, U64At, BytesAt, StringAt, NodesAt, Frame;
    var reader := new Reader(buf);
    var magic := reader.Take(|MAGIC|);
    if magic.Err? {
      return Err(magic.error);
    }
    if magic.value != MAGIC {
      return Err(BadMagic);
    }
    var kbId := reader.ReadString();
    if kbId.Err? {
      return Err(kbId.error);
    }
    var contentHash := reader.ReadString();
    if contentHash.Err? {
      return Err(contentHash.error);
    }
    var collectionState := reader.ReadBytes();
    if collectionState.Err? {
      return Err(collectionState.error);
    }
    var n := reader.ReadU64();
    if n.Err? {
      return Err(n.error);
    }
    var nodes := reader.ReadNodes(n.value);
    if nodes.Err? {
      return Err(nodes.error);
    }
    if hash(Frame(kbId.value, collectionState.value, nodes.value)) != contentHash.value {
      return Err(HashMismatch);
    }
    r := Ok(Checkpoint(kbId.value, collectionState.value, nodes.value, contentHash.value));
  }

  // ---- Printing and parsing are inverse ----

  lemma AtConcat(buf: Bytes, pos: nat, x: Bytes, y: Bytes)
    ensures At(buf, pos, x + y) <==> At(buf, pos, x) && At(buf, pos + |x|, y)
  {
    if pos + |x| + |y| <= |buf| {
      var left, right := buf[pos..pos + |x|], buf[pos + |x|..pos + |x| + |y|];
      assert buf[pos..pos + |x| + |y|] == left + right;
      assert (left + right)[..|x|] == left && (left + right)[|x|..] == right;
      assert (x + y)[..|x|] == x && (x + y)[|x|..] == y;
    }
  }

  lemma U64Exact(buf: Bytes, pos: nat, n: nat)
    requires |buf| < TWO64
    ensures U64At(buf, pos) == Ok(n) <==> n < TWO64 && At(buf, pos, Le64(n))
  {
    hide FromLe, Le64;
    if pos + 8 <= |buf| {
      Le64Exact(buf[pos..pos + 8], n);
    }
  }

  lemma BytesExact(buf: Bytes, pos: nat, b: Bytes)
    requires |buf| < TWO64
    ensures BytesAt(buf, pos) == Ok(b) <==> |b| < TWO64 && At(buf, pos, Field(b))
  {
    hide FromLe, Le64, U64At;
    U64Exact(buf, pos, |b|);
    AtConcat(buf, pos, Le64(|b|), b);
  }

  lemma StringExact(buf: Bytes, pos: nat, b: Bytes)
    requires |buf| < TWO64
    ensures StringAt(buf, pos) == Ok(b) <==> |b| < TWO64 && Utf8.Valid(b) && At(buf, pos, Field(b))
  {
    hide BytesAt, Utf8.Valid, Field, At;
    BytesExact(buf, pos, b);
  }

  predicate NodeFits(node: (Id, Bytes)) {
    |node.0| < TWO64 && |node.1| < TWO64 && Utf8.Valid(node.0)
  }

  lemma NodeAtExact(buf: Bytes, pos: nat, node: (Id, Bytes))
    requires |buf| < TWO64
    ensures (StringAt(buf, pos) == Ok(node.0) && BytesAt(buf, pos + 8 + |node.0|) == Ok(node.1))
       <==> NodeFits(node) && At(buf, pos, Field(node.0) + Field(node.1))
  {
    hide StringAt, BytesAt, At, Utf8.Valid, Le64;
    StringExact(buf, pos, node.0);
    BytesExact(buf, pos + 8 + |node.0|, node.1);
    AtConcat(buf, pos, Field(node.0), Field(node.1));
  }

  lemma {:induction false} NodesComplete(buf: Bytes, pos: nat, nodes: seq<(Id, Bytes)>)
    requires |buf| < TWO64 && At(buf, pos, PrintNodes(nodes))
    requires forall i :: 0 <= i < |nodes| ==> NodeFits(nodes[i])
    ensures NodesAt(buf, pos, |nodes|).Ok? && NodesAt(buf, pos, |nodes|).value.0 == nodes
    decreases |nodes|
  {
    hide StringAt, BytesAt, At, NodeFits, Le64;
    if nodes != [] {
      var first := Field(nodes[0].0) + Field(nodes[0].1);
      AtConcat(buf, pos, first, PrintNodes(nodes[1..]));
      NodeAtExact(buf, pos, nodes[0]);
      NodesComplete(buf, pos + |first|, nodes[1..]);
      assert nodes == [nodes[0]] + nodes[1..];
    }
  }

  lemma {:induction false} NodesSound(buf: Bytes, pos: nat, n: nat)
    requires |buf| < TWO64 && pos <= |buf| && NodesAt(buf, pos, n).Ok?
    ensures var nodes := NodesAt(buf, pos, n).value.0;
            && |nodes| == n
            && At(buf, pos, PrintNodes(nodes))
            && forall i :: 0 <= i < |nodes| ==> NodeFits(nodes[i])
    decreases n
  {
    hide StringAt, BytesAt, NodeFits, Le64;
    if n > 0 {
      var id := StringAt(buf, pos).value;
      var state := BytesAt(buf, pos + 8 + |id|).value;
      var first := Field(id) + Field(state);
      NodeAtExact(buf, pos, (id, state));
      NodesSound(buf, pos + |first|, n - 1);
      var rest := NodesAt(buf, pos + |first|, n - 1).value.0;
      AtConcat(buf, pos, first, PrintNodes(rest));
      assert ([(id, state)] + rest)[1..] == rest;
    }
  }

  /** Where each part of a printed checkpoint sits. */
  lemma PrintLayout(buf: Bytes, cp: Checkpoint)
    ensures var p1 := 15 + |cp.kbId|;
            var p2 := p1 + 8 + |cp.contentHash|;
            var p3 := p2 + 8 + |cp.collectionState|;
            Print(cp) <= buf <==>
            && At(buf, 0, MAGIC) && At(buf, 7, Field(cp.kbId)) && At(buf, p1, Field(cp.contentHash))
            && At(buf, p2, Field(cp.collectionState)) && At(buf, p3, Le64(|cp.nodes|))
            && At(buf, p3 + 8, PrintNodes(cp.nodes))
  {
    hide *;
    PrintShape(buf, cp);
    var t4 := Le64(|cp.nodes|) + PrintNodes(cp.nodes);
    var t3 := Field(cp.collectionState) + t4;
    var t2 := Field(cp.contentHash) + t3;
    var t1 := Field(cp.kbId) + t2;
    var p1 := 15 + |cp.kbId|;
    var p2 := p1 + 8 + |cp.contentHash|;
    var p3 := p2 + 8 + |cp.collectionState|;
    AtConcat(buf, 0, MAGIC, t1);
    AtConcat(buf, 7, Field(cp.kbId), t2);
    AtConcat(buf, p1, Field(cp.contentHash), t3);
    AtConcat(buf, p2, Field(cp.collectionState), t4);
    AtConcat(buf, p3, Le64(|cp.nodes|), PrintNodes(cp.nodes));
  }

  lemma PrintShape(buf: Bytes, cp: Checkpoint)
    ensures var t4 := Le64(|cp.nodes|) + PrintNodes(cp.nodes);
            var t3 := Field(cp.collectionState) + t4;
            var t2 := Field(cp.contentHash) + t3;
            var t1 := Field(cp.kbId) + t2;
            Print(cp) <= buf <==> At(buf, 0, MAGIC + t1)
    ensures |MAGIC| == 7 && |Field(cp.kbId)| == 8 + |cp.kbId| && |Field(cp.contentHash)| == 8 + |cp.contentHash|
    ensures |Field(cp.collectionState)| == 8 + |cp.collectionState|
  {
    hide PrintNodes, LeBytes, At;
    PrefixIsAt(buf, Print(cp));
  }

  lemma PrefixIsAt(buf: Bytes, x: Bytes)
    ensures x <= buf <==> At(buf, 0, x)
  {
  }

  /**
   The codec theorem. An artifact parses to `cp` exactly when `cp` is a good checkpoint
   whose printed form is a prefix of the artifact. So printing then parsing is the
   identity, and whatever is accepted prints back to a prefix of itself; bytes after the
   last node are never looked at.
   */
  lemma ParseExact(hash: Hash, buf: Bytes, cp: Checkpoint)
    requires |buf| < TWO64
    ensures Parse(hash, buf) == Ok(cp) <==> Good(hash, cp) && Print(cp) <= buf
  {
    if Parse(hash, buf) == Ok(cp) {
      ParseSound(hash, buf);
    }
    if Good(hash, cp) && Print(cp) <= buf {
      ParseComplete(hash, buf, cp);
    }
  }

  lemma ParseSound(hash: Hash, buf: Bytes)
    requires |buf| < TWO64 && Parse(hash, buf).Ok?
    ensures Good(hash, Parse(hash, buf).value) && Print(Parse(hash, buf).value) <= buf
  {
    hide StringAt, BytesAt, U64At, NodesAt, Frame, Print, Utf8.Valid;
    var cp := Parse(hash, buf).value;
    var p1 := 15 + |cp.kbId|;
    var p2 := p1 + 8 + |cp.contentHash|;
    var p3 := p2 + 8 + |cp.collectionState|;
    StringExact(buf, 7, cp.kbId);
    StringExact(buf, p1, cp.contentHash);
    BytesExact(buf, p2, cp.collectionState);
    var n := U64At(buf, p3).value;
    U64Exact(buf, p3, n);
    NodesSound(buf, p3 + 8, n);
    PrintLayout(buf, cp);
  }

  lemma ParseComplete(hash: Hash, buf: Bytes, cp: Checkpoint)
    requires |buf| < TWO64 && Good(hash, cp) && Print(cp) <= buf
    ensures Parse(hash, buf) == Ok(cp)
  {
    hide StringAt, BytesAt, U64At, NodesAt, Frame, Print, Utf8.Valid;
    var p1 := 15 + |cp.kbId|;
    var p2 := p1 + 8 + |cp.contentHash|;
    var p3 := p2 + 8 + |cp.collectionState|;
    PrintLayout(buf, cp);
    StringExact(buf, 7, cp.kbId);
    StringExact(buf, p1, cp.contentHash);
    BytesExact(buf, p2, cp.collectionState);
    U64Exact(buf, p3, |cp.nodes|);
    NodesComplete(buf, p3 + 8, cp.nodes);
  }

  // ---- What is refused, and as what ----

  /** The hash function under which every content has hash `h`. */
  function Always(h: Id): Hash {
    x => h
  }

  lemma {:induction false} FieldErrors(buf: Bytes, pos: nat, n: nat)
    ensures StringAt(buf, pos).Err? ==> StringAt(buf, pos).error !in {BadMagic, HashMismatch}
    ensures BytesAt(buf, pos).Err? ==> BytesAt(buf, pos).error !in {BadMagic, HashMismatch}
    ensures NodesAt(buf, pos, n).Err? ==> NodesAt(buf, pos, n).error !in {BadMagic, HashMismatch}
    decreases n
  {
    hide FromLe, Utf8.Valid;
    if n > 0 && StringAt(buf, pos).Ok? {
      var next := pos + 8 + |StringAt(buf, pos).value|;
      FieldErrors(buf, next, 0);
      if BytesAt(buf, next).Ok? {
        FieldErrors(buf, next + 8 + |BytesAt(buf, next).value|, n - 1);
      }
    }
  }

  /** The errors of the parser before it compares hashes do not depend on the hash function. */
  lemma HashDecidesLast(hash: Hash, hash': Hash, buf: Bytes)
    ensures Parse(hash, buf).Err? && Parse(hash, buf).error != HashMismatch ==> Parse(hash', buf) == Parse(hash, buf)
    ensures Parse(hash, buf).Ok? ==>
              var cp := Parse(hash, buf).value;
              Parse(hash', buf) == if hash'(Frame(cp.kbId, cp.collectionState, cp.nodes)) == cp.contentHash then Ok(cp) else Err(HashMismatch)
  {
    hide TakeAt, StringAt, BytesAt, U64At, NodesAt, Frame;
  }

  /** An artifact long enough to have a magic is refused for it exactly when the magic is wrong. */
  lemma BadMagicExact(hash: Hash, buf: Bytes)
    requires |buf| < TWO64
    ensures Parse(hash, buf) == Err(BadMagic) <==> |buf| >= |MAGIC| && !(MAGIC <= buf)
  {
    hide StringAt, BytesAt, U64At, NodesAt, Frame;
    ParseErrors(hash, buf);
  }

  /** After the magic no later error is `BadMagic`, and a mismatch comes from the last comparison only. */
  lemma ParseErrors(hash: Hash, buf: Bytes)
    requires |buf| < TWO64
    ensures |buf| >= |MAGIC| && MAGIC <= buf ==> Parse(hash, buf) != Err(BadMagic)
    ensures Parse(hash, buf) == Err(HashMismatch) ==> exists h: Id :: Parse(Always(h), buf).Ok?
  {
    hide StringAt, BytesAt, NodesAt, Frame, FromLe;
    FieldErrors(buf, 7, 0);
    if |buf| >= 7 && MAGIC <= buf && StringAt(buf, 7).Ok? {
      var p1 := 15 + |StringAt(buf, 7).value|;
      FieldErrors(buf, p1, 0);
      if StringAt(buf, p1).Ok? {
        var h := StringAt(buf, p1).value;
        var p2 := p1 + 8 + |h|;
        FieldErrors(buf, p2, 0);
        if BytesAt(buf, p2).Ok? {
          var p3 := p2 + 8 + |BytesAt(buf, p2).value|;
          if U64At(buf, p3).Ok? {
            FieldErrors(buf, p3 + 8, U64At(buf, p3).value);
            assert NodesAt(buf, p3 + 8, U64At(buf, p3).value).Ok? ==> Parse(Always(h), buf).Ok?;
          }
        }
      }
    }
  }

  /**
   An artifact is refused for its hash exactly when it starts with the printed form of a
   checkpoint that is good but for that: its contents do not hash to what it carries.
   */
  lemma MismatchExact(hash: Hash, buf: Bytes)
    requires |buf| < TWO64
    ensures Parse(hash, buf) == Err(HashMismatch) <==>
            exists cp: Checkpoint :: Good(Always(cp.contentHash), cp) && Print(cp) <= buf
                         && hash(Frame(cp.kbId, cp.collectionState, cp.nodes)) != cp.contentHash
  {
    hide Parse, Good, Print, Frame;
    if Parse(hash, buf) == Err(HashMismatch) {
      ParseErrors(hash, buf);
      var h: Id :| Parse(Always(h), buf).Ok?;
      var cp := Parse(Always(h), buf).value;
      HashDecidesLast(Always(h), hash, buf);
      HashDecidesLast(Always(h), Always(cp.contentHash), buf);
      ParseExact(Always(cp.contentHash), buf, cp);
    }
    if cp: Checkpoint :| Good(Always(cp.contentHash), cp) && Print(cp) <= buf && hash(Frame(cp.kbId, cp.collectionState, cp.nodes)) != cp.contentHash {
      ParseExact(Always(cp.contentHash), buf, cp);
      HashDecidesLast(Always(cp.contentHash), hash, buf);
    }
  }

  /** The hash covers the artifact without its magic and without the hash itself. */
  lemma FrameIsArtifact(cp: Checkpoint)
    ensures var p := 15 + |cp.kbId|;
            var q := p + 8 + |cp.contentHash|;
            && q <= |Print(cp)|
            && Frame(cp.kbId, cp.collectionState, cp.nodes) == Print(cp)[7..p] + Print(cp)[q..]
  {
    hide PrintNodes, LeBytes;
    var a, b := Field(cp.kbId), Field(cp.contentHash);
    var rest := Field(cp.collectionState) + (Le64(|cp.nodes|) + PrintNodes(cp.nodes));
    assert Print(cp) == MAGIC + a + b + rest;
  }

  // ---- The hash framing is unambiguous ----

  lemma FieldInjective(a: Bytes, x: Bytes, b: Bytes, y: Bytes)
    requires |a| < TWO64 && |b| < TWO64 && Field(a) + x == Field(b) + y
    ensures a == b && x == y
  {
    hide LeBytes;
    var s := Field(a) + x;
    assert s[..8] == Le64(|a|) && s[..8] == Le64(|b|);
    Le64Exact(s[..8], |a|);
    Le64Exact(s[..8], |b|);
    assert s[8..8 + |a|] == a && s[8..8 + |b|] == b;
    assert s[8 + |a|..] == x && s[8 + |b|..] == y;
  }

  lemma {:induction false} PrintNodesInjective(a: seq<(Id, Bytes)>, b: seq<(Id, Bytes)>)
    requires |a| == |b|
    requires forall i :: 0 <= i < |a| ==> |a[i].0| < TWO64 && |a[i].1| < TWO64 && |b[i].0| < TWO64 && |b[i].1| < TWO64
    requires PrintNodes(a) == PrintNodes(b)
    ensures a == b
    decreases |a|
  {
    hide Field;
    if a != [] {
      var restA, restB := PrintNodes(a[1..]), PrintNodes(b[1..]);
      assert PrintNodes(a) == Field(a[0].0) + (Field(a[0].1) + restA);
      assert PrintNodes(b) == Field(b[0].0) + (Field(b[0].1) + restB);
      FieldInjective(a[0].0, Field(a[0].1) + restA, b[0].0, Field(b[0].1) + restB);
      FieldInjective(a[0].1, restA, b[0].1, restB);
      PrintNodesInjective(a[1..], b[1..]);
      assert a == [a[0]] + a[1..] && b == [b[0]] + b[1..];
    }
  }

  /** Different contents never feed the hash the same bytes. */
  lemma FrameInjective(kb: Id, c: Bytes, nodes: seq<(Id, Bytes)>, kb': Id, c': Bytes, nodes': seq<(Id, Bytes)>)
    requires |kb| < TWO64 && |kb'| < TWO64 && |c| < TWO64 && |c'| < TWO64 && NodesSized(nodes) && NodesSized(nodes')
    requires Frame(kb, c, nodes) == Frame(kb', c', nodes')
    ensures kb == kb' && c == c' && nodes == nodes'
  {
    hide Field, Le64, PrintNodes;
    var tail, tail' := Le64(|nodes|) + PrintNodes(nodes), Le64(|nodes'|) + PrintNodes(nodes');
    FieldInjective(kb, Field(c) + tail, kb', Field(c') + tail');
    FieldInjective(c, tail, c', tail');
    assert tail[..8] == Le64(|nodes|) && tail'[..8] == Le64(|nodes'|);
    assert tail[8..] == PrintNodes(nodes) && tail'[8..] == PrintNodes(nodes');
    Le64Exact(tail[..8], |nodes|);
    Le64Exact(tail[..8], |nodes'|);
    PrintNodesInjective(nodes, nodes');
  }
}
