/**
 The search for memory in the bytes of a flattened devicetree (mm/pmm.c:76-183): a cursor moves over
 the structure block token by token.
 */
module FlatTree {
  import opened Bits
  import opened DeviceTree
  import opened MemoryNode

  const MAGIC: nat := 0xd00d_feed
  const BEGIN_NODE: nat := 1
  const END_NODE: nat := 2
  const PROP: nat := 3
  const NOP: nat := 4
  const END: nat := 9

  function Word(v: nat): (b: Bytes)
    ensures |b| == 4
  {
    [v / 256 / 256 / 256 % 256, v / 256 / 256 % 256, v / 256 % 256, v % 256]
  }

  /** `n` rounded up to a multiple of four. */
  function Pad(n: nat): (r: nat)
    ensures n <= r < n + 4 && r % 4 == 0
  {
    (n + 3) / 4 * 4
  }

  /** The cursor's 32-bit sum. */
  function Add32(a: nat, b: nat): nat
  {
    (a + b) % TWO32
  }

  /** `x & ~3u`. */
  function Mask4(x: nat): nat
  {
    x % TWO32 / 4 * 4
  }

  /** Below 4 GiB the source's cursor sums move over a token. */
  lemma {:induction false} CursorSums(p: nat, n: nat)
    requires p + 4 + Pad(n + 1) < TWO32
    ensures Add32(p, 4) == p + 4 && Add32(p + 4, Mask4(n + 4)) == p + 4 + Pad(n + 1)
  {
    assert (n + 4) % TWO32 == n + 4;
  }

  lemma {:induction false} CursorSumsData(p: nat, len: nat)
    requires p + 12 + Pad(len) < TWO32
    ensures Add32(p, 4) == p + 4 && Add32(p + 4, 4) == p + 8 && Add32(p + 8, 4) == p + 12
    ensures Add32(p + 12, Mask4(Add32(len, 3))) == p + 12 + Pad(len)
  {
    assert (len + 3) % TWO32 == len + 3;
  }

  function Zeros(n: nat): (b: Bytes)
    ensures |b| == n
  {
    seq(n, _ => 0)
  }

  /** A token's bytes (section 5.4.1 of the Devicetree Specification). */
  function Flat(t: Token): Bytes
  {
    match t
    case Begin(name) => Word(BEGIN_NODE) + (name + Zeros(Pad(|name| + 1) - |name|))
    case Property(p) => Word(PROP) + (Word(|p.data|) + (Word(p.nameoff) + (p.data + Zeros(Pad(|p.data|) - |p.data|))))
    case End => Word(END_NODE)
    case Nop => Word(NOP)
    case Fin => Word(END)
  }

  /** A token begins with a word that says which one it is; a node's name follows with its NUL, and zeros to a
      multiple of four. */
  lemma {:induction false} TokenBytes(name: Bytes)
    ensures Flat(End) == [0, 0, 0, 2] && Flat(Nop) == [0, 0, 0, 4] && Flat(Fin) == [0, 0, 0, 9]
    ensures var b, n := Flat(Begin(name)), 4 + |name|;
      && |b| % 4 == 0 && n < |b| <= n + 4 && b[..4] == [0, 0, 0, 1] && b[4..n] == name
      && forall i :: n <= i < |b| ==> b[i] == 0
  {
    assert Word(1) == [0, 0, 0, 1] && Word(2) == [0, 0, 0, 2] && Word(4) == [0, 0, 0, 4] && Word(9) == [0, 0, 0, 9];
  }

  /** A property's length, name offset and data follow, and zeros to a multiple of four. */
  lemma {:induction false} PropertyBytes(p: Prop)
    requires |p.data| < TWO32 && p.nameoff < TWO32
    ensures var b, n := Flat(Property(p)), 12 + |p.data|;
      && |b| % 4 == 0 && n <= |b| < n + 4 && b[..4] == [0, 0, 0, 3] && BigEndian(b[4..8]) == |p.data|
      && BigEndian(b[8..12]) == p.nameoff && b[12..n] == p.data
      && forall i :: n <= i < |b| ==> b[i] == 0
  {
    hide BigEndian, Be32;
    var b := Flat(Property(p));
    assert Word(3) == [0, 0, 0, 3];
    assert Stands(b, 0, b);
    PropertyParts(b, 0, p);
    WordIs(b, 4);
    WordIs(b, 8);
  }

  /** `b` stands in memory at `p`. */
  ghost predicate Stands(m: Bytes, p: nat, b: Bytes)
  {
    p + |b| <= |m| && m[p..p + |b|] == b
  }

  ghost predicate NoNul(name: Bytes)
  {
    forall i :: 0 <= i < |name| ==> name[i] != 0
  }

  /** A NUL-terminated string in memory. */
  ghost predicate Named(m: Bytes, at: nat, name: Bytes)
  {
    NoNul(name) && Stands(m, at, name + [0])
  }

  ghost predicate Fits(m: Bytes, strings: nat, t: Token)
  {
    && (t.Begin? ==> NoNul(t.name))
    && (t.Property? ==>
          |t.prop.data| < TWO32 && t.prop.nameoff < TWO32 && Named(m, strings + t.prop.nameoff, t.prop.name))
  }

  /** The tokens stand in memory one after the other from `p` on, below 4 GiB as all offsets of the format
      do, property names in the strings block. */
  ghost predicate TokensAt(m: Bytes, strings: nat, p: nat, ts: seq<Token>)
    decreases |ts|
  {
    ts == [] || (&& Fits(m, strings, ts[0]) && Stands(m, p, Flat(ts[0])) && p + |Flat(ts[0])| < TWO32
                 && TokensAt(m, strings, p + |Flat(ts[0])|, ts[1..]))
  }

  lemma {:induction false} StandsPart(m: Bytes, p: nat, a: Bytes, b: Bytes)
    requires Stands(m, p, a + b)
    ensures Stands(m, p, a) && Stands(m, p + |a|, b)
  {
    assert m[p..p + |a|] == (a + b)[..|a|] == a;
    assert m[p + |a|..p + |a| + |b|] == (a + b)[|a|..] == b;
  }

  lemma {:induction false} WordReads(m: Bytes, p: nat, v: nat)
    requires v < TWO32 && Stands(m, p, Word(v))
    ensures p + 4 <= |m| && Be32(m, p) == v
  {
    var a := v / 256;
    var b := a / 256;
    var c := b / 256;
    assert v == 256 * a + v % 256 && a == 256 * b + a % 256 && b == 256 * c + b % 256 && c < 256;
    var w := m[p..p + 4];
    assert w[0] == m[p] && w[1] == m[p + 1] && w[2] == m[p + 2] && w[3] == m[p + 3];
  }

  /** Comparing a string in memory with a literal, character by character to the NUL. */
  predicate StringIs(m: Bytes, at: nat, lit: Bytes)
  {
    at + |lit| < |m| && m[at..at + |lit|] == lit && m[at + |lit|] == 0
  }

  lemma {:induction false} NotLonger(m: Bytes, at: nat, a: Bytes, b: Bytes)
    requires Named(m, at, a) && Named(m, at, b)
    ensures |a| <= |b|
  {
    var c, d := a + [0], b + [0];
    assert m[at..at + |d|][|b|] == m[at + |b|] == 0;
    assert |b| < |c| ==> m[at..at + |c|][|b|] == m[at + |b|] == c[|b|];
  }

  lemma {:induction false} StringIsName(m: Bytes, at: nat, name: Bytes, lit: Bytes)
    requires Named(m, at, name) && NoNul(lit)
    ensures StringIs(m, at, lit) <==> name == lit
  {
    var b := name + [0];
    assert m[at..at + |name|] == b[..|name|] == name && m[at..at + |b|][|name|] == m[at + |name|] == 0;
    if StringIs(m, at, lit) {
      assert m[at..at + |lit| + 1] == lit + [0];
      NotLonger(m, at, name, lit);
      NotLonger(m, at, lit, name);
    }
  }

  // -------------------------------------------------------- the readers

  /** mm/pmm.c:102-104. */
  method NameLength(m: Bytes, p: nat, ghost name: Bytes, ghost k: nat) returns (n: nat)
    requires NoNul(name) && k > 0 && Stands(m, p, name + Zeros(k))
    ensures n == |name| && p + n < |m| && m[p..p + n] == name
  {
    ghost var b := name + Zeros(k);
    assert forall i :: 0 <= i < |b| ==> m[p..p + |b|][i] == m[p + i] == b[i];
    n := 0;
    while m[p + n] != 0
      invariant n <= |name|
      decreases |name| - n
    {
      n := n + 1;
    }
    assert m[p..p + n] == b[..n];
  }

  /** The loops of mm/pmm.c:148-157 over the data at `d`. */
  method ReadCells(m: Bytes, d: nat, len: nat, from: nat, n: int, ghost data: Bytes) returns (value: nat, q: nat)
    requires Stands(m, d, data) && len == |data|
    ensures Fold(value, q) == Gather(data, from, n, 0)
  {
    value, q := 0, from;
    var c := 0;
    while c < n && q + 4 <= len
      invariant 0 <= c && Gather(data, q, n - c, value) == Gather(data, from, n, 0)
      decreases len - q
    {
      CellReads(m, d, data, q);
      var cell := Be32(m, d + q);
      value := (value * TWO32 + cell) % TWO64;
      q := q + 4;
      c := c + 1;
    }
  }

  lemma {:induction false} CellReads(m: Bytes, d: nat, data: Bytes, q: nat)
    requires Stands(m, d, data) && q + 4 <= |data|
    ensures d + q + 4 <= |m| && Be32(m, d + q) == Be32(data, q)
  {
    assert forall i :: 0 <= i < |data| ==> m[d..d + |data|][i] == m[d + i] == data[i];
  }

  /** mm/pmm.c:143-157. */
  method ReadRegion(m: Bytes, d: nat, len: nat, c: Cells, ghost data: Bytes) returns (r: Region)
    requires Stands(m, d, data) && len == |data|
    ensures r == Decode(data, c)
  {
    var base, q := ReadCells(m, d, len, 0, Count(c.address), data);
    var size, q' := ReadCells(m, d, len, q, Count(c.size), data);
    r := Region(base, size);
  }

  /** mm/pmm.c:131-139. */
  method ReadCounts(m: Bytes, at: nat, d: nat, len: nat, c: Cells, ghost p: Prop) returns (c': Cells)
    requires Named(m, at, p.name) && Stands(m, d, p.data) && len == |p.data|
    ensures c' == CellsAfter(p, c)
  {
    StringIsName(m, at, p.name, ADDRESS_CELLS);
    StringIsName(m, at, p.name, SIZE_CELLS);
    c' := c;
    if len >= 4 {
      CellReads(m, d, p.data, 0);
    }
    if StringIs(m, at, ADDRESS_CELLS) && len >= 4 {
      c' := c.(address := Int32(Be32(m, d)));
    } else if StringIs(m, at, SIZE_CELLS) && len >= 4 {
      c' := c.(size := Int32(Be32(m, d)));
    }
  }

  /** Two cells each way: the first address and size of the property, as 64-bit numbers. */
  lemma {:induction false} DecodesPairs(base: nat, size: nat, more: Bytes, c: Cells)
    requires base < TWO64 && size < TWO64 && Count(c.address) == 2 && Count(c.size) == 2
    ensures Decode(Word(base / TWO32) + (Word(base % TWO32) + (Word(size / TWO32) + (Word(size % TWO32) + more))), c) ==
            Region(base, size)
  {
    var w3 := Word(size % TWO32) + more;
    var w2 := Word(size / TWO32) + w3;
    var w1 := Word(base % TWO32) + w2;
    var data := Word(base / TWO32) + w1;
    assert Stands(data, 0, data);
    StandsPart(data, 0, Word(base / TWO32), w1);
    StandsPart(data, 4, Word(base % TWO32), w2);
    StandsPart(data, 8, Word(size / TWO32), w3);
    StandsPart(data, 12, Word(size % TWO32), more);
    WordReads(data, 0, base / TWO32);
    WordReads(data, 4, base % TWO32);
    WordReads(data, 8, size / TWO32);
    WordReads(data, 12, size % TWO32);
    GatherTwo(data, 0, base);
    GatherTwo(data, 8, size);
  }

  lemma {:induction false} GatherTwo(data: Bytes, q: nat, v: nat)
    requires v < TWO64 && q + 8 <= |data| && Be32(data, q) == v / TWO32 && Be32(data, q + 4) == v % TWO32
    ensures Gather(data, q, 2, 0) == Fold(v, q + 8)
  {
    assert (0 * TWO32 + v / TWO32) % TWO64 == v / TWO32;
    assert (v / TWO32 * TWO32 + v % TWO32) % TWO64 == v;
    assert Gather(data, q + 4, 1, v / TWO32) == Gather(data, q + 8, 0, v);
  }

  // ------------------------------------------------------ token by token

  /** What one round of the loop makes of the tokens at `p`: an answer, or the next token's place. */
  ghost predicate Advanced(m: Bytes, strings: nat, ts: seq<Token>, s: Cursor, done: bool, answer: Answer, p': nat,
                           s': Cursor)
    requires ts != []
  {
    && (done ==> Scan(ts, s) == answer)
    && (!done ==> !ts[0].Fin? && TokensAt(m, strings, p', ts[1..]) && Scan(ts, s) == Scan(ts[1..], s'))
  }

  /** mm/pmm.c:101-109. */
  method EnterNode(m: Bytes, p: nat, s: Cursor, ghost name: Bytes) returns (p': nat, s': Cursor)
    requires NoNul(name) && Stands(m, p, Flat(Begin(name))) && p + |Flat(Begin(name))| < TWO32
    ensures p' == p + |Flat(Begin(name))| && s' == Moved(Begin(name), s)
  {
    ghost var k := Pad(|name| + 1) - |name|;
    StandsPart(m, p, Word(BEGIN_NODE), name + Zeros(k));
    CursorSums(p, |name|);
    var at := Add32(p, 4);
    var n := NameLength(m, at, name, k);
    p' := Add32(at, Mask4(n + 4));
    var memory := n >= 6 && m[at..at + 6] == MEMORY;
    assert n >= 6 ==> m[at..at + 6] == name[..6];
    s' := Cursor(s.depth + 1, memory, s.cells);
  }

  /** Where a property's parts stand. */
  lemma {:induction false} PropertyParts(m: Bytes, p: nat, q: Prop)
    requires Stands(m, p, Flat(Property(q))) && |q.data| < TWO32 && q.nameoff < TWO32
    ensures p + 12 <= |m| && Be32(m, p + 4) == |q.data| && Be32(m, p + 8) == q.nameoff && Stands(m, p + 12, q.data)
    ensures |Flat(Property(q))| == 12 + Pad(|q.data|)
  {
    var z := Zeros(Pad(|q.data|) - |q.data|);
    var a := q.data + z;
    var b := Word(q.nameoff) + a;
    var c := Word(|q.data|) + b;
    StandsPart(m, p, Word(PROP), c);
    StandsPart(m, p + 4, Word(|q.data|), b);
    StandsPart(m, p + 8, Word(q.nameoff), a);
    StandsPart(m, p + 12, q.data, z);
    WordReads(m, p + 4, |q.data|);
    WordReads(m, p + 8, q.nameoff);
  }

  /** mm/pmm.c:111-168. Whether a device_type says "memory" makes no difference, as "reg" is looked at
      in memory nodes only. */
  method VisitProperty(m: Bytes, strings: nat, p: nat, s: Cursor, ghost q: Prop)
    returns (done: bool, answer: Answer, p': nat, s': Cursor)
    requires Fits(m, strings, Property(q)) && Stands(m, p, Flat(Property(q))) && p + |Flat(Property(q))| < TWO32
    ensures p' == p + |Flat(Property(q))| && s' == Moved(Property(q), s) && done == Hits(Property(q), s)
    ensures done ==> answer == Found(Decode(q.data, s'.cells))
  {
    PropertyParts(m, p, q);
    CursorSumsData(p, |q.data|);
    var w := Add32(p, 4);
    var len := Be32(m, w);
    w := Add32(w, 4);
    var at := strings + Be32(m, w);
    var d := Add32(w, 4);
    s' := s;
    if s.depth == 1 {
      var c := ReadCounts(m, at, d, len, s.cells, q);
      s' := s.(cells := c);
    }
    StringIsName(m, at, q.name, REG);
    answer, p' := None, Add32(d, Mask4(Add32(len, 3)));
    done := s.memory && StringIs(m, at, REG);
    if done {
      var r := ReadRegion(m, d, len, s'.cells, q.data);
      answer := Found(r);
    }
  }

  /** One round of mm/pmm.c:97-181. */
  method ReadToken(m: Bytes, strings: nat, p: nat, s: Cursor, ghost t: Token)
    returns (done: bool, answer: Answer, p': nat, s': Cursor)
    requires Fits(m, strings, t) && Stands(m, p, Flat(t)) && p + |Flat(t)| < TWO32
    ensures done <==> t.Fin? || Hits(t, s)
    ensures done ==> answer == if t.Fin? then None else Found(Decode(t.prop.data, Moved(t, s).cells))
    ensures !done ==> p' == p + |Flat(t)| && s' == Moved(t, s)
  {
    TokenReads(m, p, t);
    var token := Be32(m, p);
    done, answer, p', s' := false, None, Add32(p, 4), s;
    if token == BEGIN_NODE {
      p', s' := EnterNode(m, p, s, t.name);
    } else if token == PROP {
      done, answer, p', s' := VisitProperty(m, strings, p, s, t.prop);
    } else if token == END_NODE {
      s' := Cursor(if s.depth > 0 then s.depth - 1 else 0, false, s.cells);
    } else if token != NOP {
      done := true;
    }
  }

  method Round(m: Bytes, strings: nat, p: nat, s: Cursor, ghost ts: seq<Token>)
    returns (done: bool, answer: Answer, p': nat, s': Cursor)
    requires TokensAt(m, strings, p, ts) && ts != []
    ensures Advanced(m, strings, ts, s, done, answer, p', s')
  {
    hide TokensAt, Scan;
    Advances(m, strings, p, ts, s);
    done, answer, p', s' := ReadToken(m, strings, p, s, ts[0]);
  }

  lemma {:induction false} Advances(m: Bytes, strings: nat, p: nat, ts: seq<Token>, s: Cursor)
    requires TokensAt(m, strings, p, ts) && ts != []
    ensures Fits(m, strings, ts[0]) && Stands(m, p, Flat(ts[0])) && p + |Flat(ts[0])| < TWO32
    ensures ts[0].Fin? ==> Scan(ts, s) == None
    ensures Hits(ts[0], s) ==> Scan(ts, s) == Found(Decode(ts[0].prop.data, Moved(ts[0], s).cells))
    ensures !ts[0].Fin? && !Hits(ts[0], s) ==>
              TokensAt(m, strings, p + |Flat(ts[0])|, ts[1..]) && Scan(ts, s) == Scan(ts[1..], Moved(ts[0], s))
  {}

  function Code(t: Token): nat
  {
    match t
    case Begin(_) => BEGIN_NODE
    case Property(_) => PROP
    case End => END_NODE
    case Nop => NOP
    case Fin => END
  }

  lemma {:induction false} TokenReads(m: Bytes, p: nat, t: Token)
    requires Stands(m, p, Flat(t))
    ensures p + 4 <= |m| && Be32(m, p) == Code(t)
  {
    var rest := Flat(t)[4..];
    assert Flat(t) == Word(Code(t)) + rest;
    StandsPart(m, p, Word(Code(t)), rest);
    WordReads(m, p, Code(t));
  }

  /** mm/pmm.c:76-183: for every well-formed tree whose flattened form stands in memory, the loop ends
      with what the search in the tree gives. */
  method FindMemoryRegion(present: bool, m: Bytes, ghost root: Node) returns (r: int, region: Region)
    requires present ==> |m| >= 40
    requires present && Be32(m, 0) == 0xd00d_feed ==>
               WellFormed(root) && root.name == [] && TokensAt(m, Be32(m, 12), Be32(m, 8), Tokens(root) + [Fin])
    ensures !present || Be32(m, 0) != 0xd00d_feed ==> r == -1
    ensures present && Be32(m, 0) == 0xd00d_feed ==>
              && (r == 0 || r == -1)
              && (r == 0 <==> exists i, k :: 0 <= i < |Nodes(root)| && IsReg(Nodes(root)[i], k))
    ensures r == 0 ==> MemoryOf(root) == Found(region) && Describes(root, region)
  {
    region := Region(0, 0);
    if !present || Be32(m, 0) != MAGIC {
      return -1, region;
    }
    ScanIsSearch(root);
    MemoryIsDescribed(root);
    var answer := ScanTokens(m, Be32(m, 12), Be32(m, 8), Tokens(root) + [Fin]);
    if answer.None? {
      return -1, region;
    }
    return 0, answer.region;
  }

  /** The loop of mm/pmm.c:88-182. */
  method ScanTokens(m: Bytes, strings: nat, start: nat, ghost ts: seq<Token>) returns (answer: Answer)
    requires TokensAt(m, strings, start, ts) && ts != [] && ts[|ts| - 1].Fin?
    ensures answer == Scan(ts, Cursor(0, false, Cells(2, 2)))
  {
    hide TokensAt, Scan;
    var p, s, done := start, Cursor(0, false, Cells(2, 2)), false;
    ghost var rest, goal := ts, Scan(ts, s);
    answer := None;
    while !done
      invariant done ==> answer == goal
      invariant !done ==> TokensAt(m, strings, p, rest) && Scan(rest, s) == goal
      invariant rest != [] && rest[|rest| - 1].Fin?
      decreases |rest|, !done
    {
      done, answer, p, s := Round(m, strings, p, s, rest);
      if !done {
        rest := rest[1..];
      }
    }
  }
}
