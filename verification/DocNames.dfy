/**
 Document addresses: the string form used on the wire and in storage, and the
 classification the rest of the model works with.
 */
module DocNames {
  import opened Basics

  const COLON: byte := 58
  const SLASH: byte := 47
  const FILE_PREFIX: Id := [102, 105, 108, 101, 58]             // "file:"
  const COLLECTION_PREFIX: Id := [107, 98, 99, 58]              // "kbc:"
  const NODE_PREFIX: Id := [107, 98, 110, 58]                   // "kbn:"
  const SHARED_PREFIX: Id := [115, 104, 97, 114, 101, 100, 58]  // "shared:"
  const LEGACY_PREFIX: Id := [107, 98, 58]                      // "kb:"

  datatype DocAddress =
    | File(projectHash: Id, relPath: Id)
    | Node(kb: Id, node: Id)
    | Collection(kb: Id)
    | Shared(name: Id)

  /** The canonical name of an address. */
  function Format(a: DocAddress): Id {
    match a
    case File(h, p) => FILE_PREFIX + h + [SLASH] + p
    case Node(kb, node) => NODE_PREFIX + kb + [COLON] + node
    case Collection(kb) => COLLECTION_PREFIX + kb
    case Shared(name) => SHARED_PREFIX + name
  }

  /** Index of the first occurrence of `c`, or the length when there is none. */
  function Find(s: Id, c: byte): (i: nat)
    ensures i <= |s|
    ensures forall j :: 0 <= j < i ==> s[j] != c
    ensures i < |s| ==> s[i] == c
  {
    if s == [] then 0 else if s[0] == c then 0 else 1 + Find(s[1..], c)
  }

  /** Split at the first `c`; both halves must be non-empty. */
  function SplitOnce(s: Id, c: byte): Option<(Id, Id)> {
    var i := Find(s, c);
    if i == |s| || i == 0 || i + 1 == |s| then None else Some((s[..i], s[i + 1..]))
  }

  /** Parse a name back into an address. */
  function Parse(s: Id): Option<DocAddress> {
    if FILE_PREFIX <= s then
      match SplitOnce(s[|FILE_PREFIX|..], SLASH)
      case None => None
      case Some(parts) => Some(File(parts.0, parts.1))
    else if COLLECTION_PREFIX <= s then
      if |s| == |COLLECTION_PREFIX| then None else Some(Collection(s[|COLLECTION_PREFIX|..]))
    else if NODE_PREFIX <= s then
      match SplitOnce(s[|NODE_PREFIX|..], COLON)
      case None => None
      case Some(parts) => Some(Node(parts.0, parts.1))
    else if SHARED_PREFIX <= s then
      if |s| == |SHARED_PREFIX| then None else Some(Shared(s[|SHARED_PREFIX|..]))
    else
      None
  }

  /** May this KB id appear in a node address? */
  predicate Addressable(kb: Id) {
    kb != [] && COLON !in kb
  }

  /** The addresses whose string form can be read back. */
  predicate WellFormed(a: DocAddress) {
    match a
    case File(h, p) => h != [] && SLASH !in h && p != []
    case Node(kb, node) => Addressable(kb) && node != []
    case Collection(kb) => kb != []
    case Shared(name) => name != []
  }

  lemma FindSplits(a: Id, c: byte, b: Id)
    requires c !in a
    ensures Find(a + [c] + b, c) == |a|
  {
    var s := a + [c] + b;
    assert s[|a|] == c;
    assert forall j :: 0 <= j < |a| ==> s[j] == a[j];
  }

  lemma SplitJoins(s: Id, c: byte)
    ensures SplitOnce(s, c).Some? ==>
              var (a, b) := SplitOnce(s, c).value; s == a + [c] + b && c !in a && a != [] && b != []
  {
    var i := Find(s, c);
    if SplitOnce(s, c).Some? {
      assert s == s[..i] + [s[i]] + s[i + 1..];
      assert forall x :: x in s[..i] ==> x != c;
    }
  }

  lemma SplitOfJoin(a: Id, c: byte, b: Id)
    requires c !in a && a != [] && b != []
    ensures SplitOnce(a + [c] + b, c) == Some((a, b))
  {
    FindSplits(a, c, b);
    var s := a + [c] + b;
    assert s[..|a|] == a && s[|a| + 1..] == b;
  }

  lemma Rejoin(prefix: Id, s: Id, c: byte)
    requires prefix <= s
    ensures s == prefix + s[|prefix|..]
    ensures SplitOnce(s[|prefix|..], c).Some? ==>
              var (a, b) := SplitOnce(s[|prefix|..], c).value;
              s == prefix + a + [c] + b && c !in a && a != [] && b != []
  {
    SplitJoins(s[|prefix|..], c);
  }

  /** Everything that parses is the canonical form of a well-formed address. */
  lemma ParseIsInverse(s: Id)
    ensures Parse(s).Some? ==> Format(Parse(s).value) == s && WellFormed(Parse(s).value)
  {
    if FILE_PREFIX <= s {
      Rejoin(FILE_PREFIX, s, SLASH);
    } else if COLLECTION_PREFIX <= s {
      Rejoin(COLLECTION_PREFIX, s, COLON);
    } else if NODE_PREFIX <= s {
      Rejoin(NODE_PREFIX, s, COLON);
    } else if SHARED_PREFIX <= s {
      Rejoin(SHARED_PREFIX, s, COLON);
    }
  }

  lemma PrefixesDisjoint(s: Id)
    ensures COLLECTION_PREFIX <= s ==> !(FILE_PREFIX <= s)
    ensures NODE_PREFIX <= s ==> !(FILE_PREFIX <= s) && !(COLLECTION_PREFIX <= s)
    ensures SHARED_PREFIX <= s ==> !(FILE_PREFIX <= s) && !(COLLECTION_PREFIX <= s) && !(NODE_PREFIX <= s)
    ensures LEGACY_PREFIX <= s ==> Parse(s).None?
  {
    if COLLECTION_PREFIX <= s { assert s[0] == 107; }
    if NODE_PREFIX <= s { assert s[0] == 107 && s[2] == 110; }
    if SHARED_PREFIX <= s { assert s[0] == 115; }
    if FILE_PREFIX <= s { assert s[0] == 102; }
    if LEGACY_PREFIX <= s { assert s[0] == 107 && s[2] == 58; }
    if COLLECTION_PREFIX <= s { assert s[2] == 99; }
  }

  /** The address round trip holds exactly for the well-formed addresses. */
  lemma RoundTrip(a: DocAddress)
    ensures Parse(Format(a)) == Some(a) <==> WellFormed(a)
  {
    var s := Format(a);
    PrefixesDisjoint(s);
    ParseIsInverse(s);
    if WellFormed(a) {
      match a
      case File(h, p) =>
        assert FILE_PREFIX <= s && s[|FILE_PREFIX|..] == h + [SLASH] + p;
        SplitOfJoin(h, SLASH, p);
      case Node(kb, node) =>
        assert NODE_PREFIX <= s && s[|NODE_PREFIX|..] == kb + [COLON] + node;
        SplitOfJoin(kb, COLON, node);
      case Collection(kb) =>
        assert COLLECTION_PREFIX <= s && s[|COLLECTION_PREFIX|..] == kb;
      case Shared(name) =>
        assert SHARED_PREFIX <= s && s[|SHARED_PREFIX|..] == name;
    }
  }

  /** A KB id with a colon in it addresses its nodes into a different KB. */
  lemma ColonMisaddresses(left: Id, right: Id, node: Id)
    requires Addressable(left)
    requires right + [COLON] + node != []
    ensures Parse(Format(Node(left + [COLON] + right, node))) == Some(Node(left, right + [COLON] + node))
  {
    RoundTrip(Node(left, right + [COLON] + node));
    assert Format(Node(left + [COLON] + right, node)) == Format(Node(left, right + [COLON] + node));
  }

  /**
   What the daemon does with a name depends only on its class. `Legacy` is a `kb:` name
   from before node addresses carried a KB id; it does not parse.
   */
  datatype DocName =
    | KbNode(kb: Id, node: Id)
    | KbCollection(kb: Id)
    | Legacy(node: Id)
    | Other(name: Id)

  /** Documents by name. */
  type Docs = map<DocName, Doc>

  function Classify(s: Id): DocName {
    match Parse(s)
    case Some(Node(kb, node)) => KbNode(kb, node)
    case Some(Collection(kb)) => KbCollection(kb)
    case _ => if LEGACY_PREFIX <= s then Legacy(s[|LEGACY_PREFIX|..]) else Other(s)
  }

  /** Durable documents hold KB content and are never deleted by eviction. */
  predicate Durable(d: DocName) {
    d.KbNode? || d.KbCollection?
  }

  /** Classification loses nothing: distinct names stay distinct. */
  lemma ClassifyInjective(s: Id, t: Id)
    requires Classify(s) == Classify(t)
    ensures s == t
  {
    ParseIsInverse(s);
    ParseIsInverse(t);
    PrefixesDisjoint(s);
    PrefixesDisjoint(t);
    if Classify(s).Legacy? {
      assert s == LEGACY_PREFIX + s[|LEGACY_PREFIX|..];
      assert t == LEGACY_PREFIX + t[|LEGACY_PREFIX|..];
    }
  }

  /** A name is durable exactly when it is the address of a KB node or a KB collection, and legacy exactly by its prefix. */
  lemma DurableExactly(s: Id)
    ensures Durable(Classify(s)) <==> Parse(s).Some? && (Parse(s).value.Node? || Parse(s).value.Collection?)
    ensures Classify(s).Legacy? <==> LEGACY_PREFIX <= s
  {
    PrefixesDisjoint(s);
  }
}
