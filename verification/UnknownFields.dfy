/**
 The fields that the decoder of types/indexer.pb.go passes over: a grammar of well-formed fields, with
 any varint that the decoder accepts and groups nested to any depth, and the proof that `skipIndexer`
 accepts exactly this grammar.
 */
module UnknownFields {
  import opened Machine
  import opened Varint
  import opened Wire

  // ---------- Varints of any length ----------

  /** One varint and nothing else; it need not be the shortest one for its value. */
  predicate IsVarint(s: seq<byte>) {
    Read(s, 0).Varint? && Read(s, 0).size == |s|
  }

  function ValueOf(s: seq<byte>): nat {
    match Read(s, 0)
    case Varint(v, _) => v
    case BadVarint(_, _) => 0
  }

  predicate IsTag(s: seq<byte>, wireType: nat) {
    IsVarint(s) && ValueOf(s) % 8 == wireType
  }

  lemma ReadVarint(s: seq<byte>, rest: seq<byte>)
    requires IsVarint(s)
    ensures Read(s + rest, 0) == Varint(ValueOf(s), |s|)
  {
    ReadPrefix(s, rest, 0);
  }

  /** The bytes that a read consumed are a varint. */
  lemma {:induction false} ReadCut(s: seq<byte>, k: nat)
    requires Read(s, k).Varint?
    ensures Read(s[..Read(s, k).size], k) == Read(s, k)
    decreases |s|
  {
    var n := Read(s, k).size;
    if s[0] >= 128 {
      ReadCut(s[1..], k + 1);
      assert s[..n][1..] == s[1..][..n - 1];
    }
  }

  lemma EncodeIsVarint(v: uint64)
    ensures IsVarint(Encode(v)) && ValueOf(Encode(v)) == v
  {
    ReadEncode64(v, []);
    assert Encode(v) + [] == Encode(v);
  }

  // ---------- The grammar ----------

  /** A field of any wire type, as its bytes. The end tag of a group may carry another number. */
  datatype Unknown =
    | VarintField(tag: seq<byte>, value: seq<byte>)
    | Fixed64Field(tag: seq<byte>, data: seq<byte>)
    | BytesField(tag: seq<byte>, length: seq<byte>, data: seq<byte>)
    | GroupField(tag: seq<byte>, items: seq<Unknown>, endTag: seq<byte>)
    | Fixed32Field(tag: seq<byte>, data: seq<byte>)

  function WireTypeOf(u: Unknown): nat {
    match u
    case VarintField(_, _) => 0
    case Fixed64Field(_, _) => 1
    case BytesField(_, _, _) => 2
    case GroupField(_, _, _) => 3
    case Fixed32Field(_, _) => 5
  }

  ghost predicate WellFormed(u: Unknown) {
    && IsTag(u.tag, WireTypeOf(u))
    && match u
       case VarintField(_, value) => IsVarint(value)
       case Fixed64Field(_, data) => |data| == 8
       case BytesField(_, length, data) => IsVarint(length) && Signed64(ValueOf(length)) == |data|
       case GroupField(_, items, endTag) => IsTag(endTag, 4) && forall x :: x in items ==> WellFormed(x)
       case Fixed32Field(_, data) => |data| == 4
  }

  function Bytes(u: Unknown): seq<byte>
    decreases u, 0
  {
    match u
    case VarintField(tag, value) => tag + value
    case Fixed64Field(tag, data) => tag + data
    case BytesField(tag, length, data) => tag + (length + data)
    case GroupField(tag, items, endTag) => tag + (AllBytes(items) + endTag)
    case Fixed32Field(tag, data) => tag + data
  }

  function AllBytes(items: seq<Unknown>): seq<byte>
    decreases items, 1
  {
    if items == [] then [] else Bytes(items[0]) + AllBytes(items[1..])
  }

  // ---------- Every field of the grammar is skipped ----------

  lemma TagToken(tag: seq<byte>, wireType: nat, body: seq<byte>)
    requires IsTag(tag, wireType)
    ensures NextToken(tag + body) == TokenAfter(|tag|, wireType, body)
  {
    ReadVarint(tag, body);
    assert (tag + body)[|tag|..] == body;
  }

  /** The token whose tag took `n` bytes, with `body` after it. */
  function TokenAfter(n: Size, wireType: int, body: seq<byte>): TokenResult {
    match FieldSize(body, wireType)
    case BadSkip(e) => BadToken(e)
    case Skipped(k) => Token(wireType, n + k)
  }

  lemma OneToken(tag: seq<byte>, wireType: nat, body: seq<byte>, rest: seq<byte>)
    requires IsTag(tag, wireType) && FieldSize(body + rest, wireType) == Skipped(|body|)
    ensures NextToken(tag + body + rest) == Token(wireType, |tag + body|)
  {
    TagToken(tag, wireType, body + rest);
    assert tag + body + rest == tag + (body + rest);
  }

  /** A field that is not a group is one token, as long as its bytes. */
  lemma FlatToken(u: Unknown, rest: seq<byte>)
    requires WellFormed(u) && !u.GroupField?
    ensures NextToken(Bytes(u) + rest) == Token(WireTypeOf(u), |Bytes(u)|)
  {
    match u
    case VarintField(tag, value) =>
      ReadVarint(value, rest);
      OneToken(tag, 0, value, rest);
    case Fixed64Field(tag, data) =>
      OneToken(tag, 1, data, rest);
    case BytesField(tag, length, data) =>
      BytesSize(length, data, rest);
      OneToken(tag, 2, length + data, rest);
    case Fixed32Field(tag, data) =>
      OneToken(tag, 5, data, rest);
  }

  lemma BytesSize(length: seq<byte>, data: seq<byte>, rest: seq<byte>)
    requires IsVarint(length) && Signed64(ValueOf(length)) == |data|
    ensures FieldSize(length + data + rest, 2) == Skipped(|length + data|)
  {
    ReadVarint(length, data + rest);
    assert length + data + rest == length + (data + rest);
  }

  // A field is a run of tokens: itself, or an opening tag, the tokens inside, and a closing tag.

  datatype Chunk = Chunk(wireType: nat, bytes: seq<byte>)

  ghost predicate SelfDelimiting(c: Chunk) {
    c.bytes != [] && NextToken(c.bytes) == Token(c.wireType, |c.bytes|)
  }

  function Chunks(u: Unknown): seq<Chunk>
    decreases u, 0
  {
    if u.GroupField?
    then [Chunk(3, u.tag)] + (AllChunks(u.items) + [Chunk(4, u.endTag)])
    else [Chunk(WireTypeOf(u), Bytes(u))]
  }

  function AllChunks(items: seq<Unknown>): seq<Chunk>
    decreases items, 1
  {
    if items == [] then [] else Chunks(items[0]) + AllChunks(items[1..])
  }

  function Joined(cs: seq<Chunk>): seq<byte> {
    if cs == [] then [] else cs[0].bytes + Joined(cs[1..])
  }

  lemma {:induction false} JoinedConcat(cs: seq<Chunk>, ds: seq<Chunk>)
    ensures Joined(cs + ds) == Joined(cs) + Joined(ds)
  {
    if cs == [] {
      assert cs + ds == ds;
    } else {
      assert (cs + ds)[1..] == cs[1..] + ds;
      JoinedConcat(cs[1..], ds);
    }
  }

  lemma JoinedGroup(tag: seq<byte>, inner: seq<Chunk>, endTag: seq<byte>)
    ensures Joined([Chunk(3, tag)] + (inner + [Chunk(4, endTag)])) == tag + (Joined(inner) + endTag)
  {
    JoinedConcat(inner, [Chunk(4, endTag)]);
    JoinedConcat([Chunk(3, tag)], inner + [Chunk(4, endTag)]);
  }

  lemma MarkerDelimits(tag: seq<byte>, wireType: nat)
    requires IsTag(tag, wireType) && wireType in {3, 4}
    ensures SelfDelimiting(Chunk(wireType, tag))
  {
    TagToken(tag, wireType, []);
    assert tag + [] == tag;
  }

  lemma {:induction false} JoinedChunks(u: Unknown)
    requires WellFormed(u)
    ensures Joined(Chunks(u)) == Bytes(u)
    ensures forall c :: c in Chunks(u) ==> SelfDelimiting(c)
    decreases u, 0
  {
    if u.GroupField? {
      JoinedAllChunks(u.items);
      JoinedGroup(u.tag, AllChunks(u.items), u.endTag);
      MarkerDelimits(u.tag, 3);
      MarkerDelimits(u.endTag, 4);
    } else {
      FlatToken(u, []);
      assert Bytes(u) + [] == Bytes(u);
    }
  }

  lemma {:induction false} JoinedAllChunks(items: seq<Unknown>)
    requires forall x :: x in items ==> WellFormed(x)
    ensures Joined(AllChunks(items)) == AllBytes(items)
    ensures forall c :: c in AllChunks(items) ==> SelfDelimiting(c)
    decreases items, 1
  {
    if items != [] {
      JoinedChunks(items[0]);
      JoinedAllChunks(items[1..]);
      JoinedConcat(Chunks(items[0]), AllChunks(items[1..]));
    }
  }

  /** Passing over `cs` with `d` groups open never closes the last one, and leaves `e` open. */
  ghost predicate StaysOpen(cs: seq<Chunk>, d: nat, e: nat) {
    if cs == [] then d == e
    else
      var w := cs[0].wireType;
      (w == 4 ==> d > 1) && DepthAfter(w, d) > 0 && StaysOpen(cs[1..], DepthAfter(w, d), e)
  }

  lemma {:induction false} StaysOpenConcat(cs: seq<Chunk>, ds: seq<Chunk>, d: nat, e: nat, f: nat)
    requires StaysOpen(cs, d, e) && StaysOpen(ds, e, f)
    ensures StaysOpen(cs + ds, d, f)
    decreases cs
  {
    if cs == [] {
      assert cs + ds == ds;
    } else {
      assert (cs + ds)[1..] == cs[1..] + ds;
      StaysOpenConcat(cs[1..], ds, DepthAfter(cs[0].wireType, d), e, f);
    }
  }

  /** Inside a group, a field restores the depth it found. */
  lemma {:induction false} ChunksBalanced(u: Unknown, d: nat)
    requires d > 0
    ensures StaysOpen(Chunks(u), d, d)
    decreases u, 0
  {
    if u.GroupField? {
      var open, close := Chunk(3, u.tag), Chunk(4, u.endTag);
      AllChunksBalanced(u.items, d + 1);
      StaysOpenConcat(AllChunks(u.items), [close], d + 1, d + 1, d);
      StaysOpenConcat([open], AllChunks(u.items) + [close], d, d + 1, d);
    }
  }

  lemma {:induction false} AllChunksBalanced(items: seq<Unknown>, d: nat)
    requires d > 0
    ensures StaysOpen(AllChunks(items), d, d)
    decreases items, 1
  {
    if items != [] {
      ChunksBalanced(items[0], d);
      AllChunksBalanced(items[1..], d);
      StaysOpenConcat(Chunks(items[0]), AllChunks(items[1..]), d, d, d);
    }
  }

  /** `next` reads the chunk as one token, whatever follows it. */
  ghost predicate Delimits(next: Tokenizer, c: Chunk) {
    c.bytes != [] && forall t :: next(c.bytes + t) == Token(c.wireType, |c.bytes|)
  }

  lemma SkipChunk(next: Tokenizer, c: Chunk, rest: seq<byte>, pos: nat, d: nat)
    requires Delimits(next, c)
    requires c.wireType == 4 ==> d > 0
    requires pos + |c.bytes + rest| < TWO63
    ensures SkipBy(next, c.bytes + rest, pos, d) ==
            if DepthAfter(c.wireType, d) == 0 then Skipped(pos + |c.bytes|)
            else SkipBy(next, rest, pos + |c.bytes|, DepthAfter(c.wireType, d))
  {
    assert (c.bytes + rest)[|c.bytes|..] == rest;
  }

  lemma {:induction false} SkipChunks(next: Tokenizer, cs: seq<Chunk>, rest: seq<byte>, pos: nat, d: nat, e: nat)
    requires forall c :: c in cs ==> Delimits(next, c)
    requires StaysOpen(cs, d, e)
    requires pos + |Joined(cs) + rest| < TWO63
    ensures SkipBy(next, Joined(cs) + rest, pos, d) == SkipBy(next, rest, pos + |Joined(cs)|, e)
    decreases cs
  {
    if cs == [] {
      assert Joined(cs) + rest == rest;
    } else {
      var first, more := cs[0].bytes, Joined(cs[1..]);
      assert (first + more) + rest == first + (more + rest);
      SkipChunk(next, cs[0], more + rest, pos, d);
      SkipChunks(next, cs[1..], rest, pos + |first|, DepthAfter(cs[0].wireType, d), e);
    }
  }

  /** A whole field is passed over when all its tokens but the last leave a group open. */
  lemma SkipField(next: Tokenizer, front: seq<Chunk>, last: Chunk, rest: seq<byte>, d: nat)
    requires Delimits(next, last) && forall c :: c in front ==> Delimits(next, c)
    requires StaysOpen(front, 0, d) && (last.wireType == 4 ==> d > 0) && DepthAfter(last.wireType, d) == 0
    requires |Joined(front + [last]) + rest| < TWO63
    ensures SkipBy(next, Joined(front + [last]) + rest, 0, 0) == Skipped(|Joined(front + [last])|)
  {
    JoinedConcat(front, [last]);
    assert Joined([last]) == last.bytes;
    assert Joined(front + [last]) + rest == Joined(front) + (last.bytes + rest);
    SkipChunks(next, front, last.bytes + rest, 0, 0, d);
    SkipChunk(next, last, rest, |Joined(front)|, d);
  }

  /** Skipping passes over one well-formed field of any wire type, and over nothing else. */
  lemma SkipUnknown(u: Unknown, rest: seq<byte>)
    requires WellFormed(u)
    requires |Bytes(u) + rest| < TWO63
    ensures Skip(Bytes(u) + rest) == Skipped(|Bytes(u)|)
  {
    JoinedChunks(u);
    var cs := Chunks(u);
    forall c | c in cs ensures Delimits(NextToken, c) {
      forall t ensures NextToken(c.bytes + t) == Token(c.wireType, |c.bytes|) {
        TokenPrefix(c.bytes, t);
      }
    }
    if u.GroupField? {
      AllChunksBalanced(u.items, 1);
      var front := [cs[0]] + AllChunks(u.items);
      StaysOpenConcat([cs[0]], AllChunks(u.items), 0, 1, 1);
      assert cs == front + [cs[|cs| - 1]];
      SkipField(NextToken, front, cs[|cs| - 1], rest, 1);
    } else {
      assert cs == [] + [cs[0]];
      SkipField(NextToken, [], cs[0], rest, 0);
    }
  }

  // ---------- Nothing else is skipped ----------

  /** A token that is no group marker is a field of the grammar. */
  lemma FlatField(s: seq<byte>) returns (u: Unknown)
    requires NextToken(s).Token? && NextToken(s).size <= |s| && NextToken(s).wireType !in {3, 4}
    ensures WellFormed(u) && Bytes(u) == s[..NextToken(s).size]
  {
    var Varint(_, n) := Read(s, 0);
    var Token(wireType, size) := NextToken(s);
    var tag, body := s[..n], s[n..];
    ReadCut(s, 0);
    assert s[..size] == tag + body[..size - n];
    match wireType
    case 0 =>
      ReadCut(body, 0);
      u := VarintField(tag, body[..size - n]);
    case 1 =>
      u := Fixed64Field(tag, body[..8]);
    case 2 =>
      var k := Read(body, 0).size;
      ReadCut(body, 0);
      u := BytesField(tag, body[..k], body[k..size - n]);
      assert body[..size - n] == body[..k] + body[k..size - n];
    case _ =>
      u := Fixed32Field(tag, body[..4]);
  }

  lemma MarkerTag(s: seq<byte>)
    requires NextToken(s).Token? && NextToken(s).wireType in {3, 4}
    ensures NextToken(s).size <= |s| && IsTag(s[..NextToken(s).size], NextToken(s).wireType)
  {
    ReadCut(s, 0);
  }

  /** The bytes of one well-formed field. */
  ghost predicate IsField(s: seq<byte>) {
    exists u :: WellFormed(u) && Bytes(u) == s
  }

  /** The bytes of well-formed fields and of the closing tag of the group they are in. */
  ghost predicate IsInside(s: seq<byte>) {
    exists items, endTag :: InsideOf(s, items, endTag)
  }

  ghost predicate InsideOf(s: seq<byte>, items: seq<Unknown>, endTag: seq<byte>) {
    (forall x :: x in items ==> WellFormed(x)) && IsTag(endTag, 4) && s == AllBytes(items) + endTag
  }

  /**
   A way to skip over tokens, and a grammar of what it skips: `skips(s, pos, d, n)` if skipping from
   position `pos`, with `d` groups open and `s` ahead, ends at position `n`.
   */
  datatype Grammar = Grammar(
    next: Tokenizer,
    skips: (seq<byte>, nat, nat, nat) -> bool,
    field: seq<byte> -> bool,
    inside: seq<byte> -> bool)
  {
    /** One token is passed: a closing tag, an opening one, or a whole field. */
    ghost predicate Steps(s: seq<byte>, pos: nat, d: nat, n: nat) {
      && s != [] && next(s).Token? && next(s).size <= |s|
      && var Token(wireType, t) := next(s);
        if wireType == 4 then Closed(s, pos, d, n, t)
        else skips(s[t..], pos + t, if wireType == 3 then d + 1 else d, n)
    }

    ghost predicate Closed(s: seq<byte>, pos: nat, d: nat, n: nat, k: nat) {
      k <= |s| && if d <= 1 then n == pos + k else skips(s[k..], pos + k, d - 1, n)
    }

    ghost predicate Lawful() {
      && (forall s, pos: nat, d: nat, n: nat {:trigger Steps(s, pos, d, n)} ::
            skips(s, pos, d, n) && d > 0 && n <= pos + |s| ==> Steps(s, pos, d, n))
      && (forall s {:trigger TokenLaw(s)} :: next(s).Token? && next(s).size <= |s| ==> TokenLaw(s))
      && (forall f, x {:trigger inside(f + x)} :: field(f) && inside(x) ==> inside(f + x))
    }

    ghost predicate TokenLaw(s: seq<byte>)
      requires next(s).Token? && next(s).size <= |s|
    {
      var Token(wireType, t) := next(s);
      if wireType == 4 then inside(s[..t])
      else if wireType == 3 then forall x {:trigger field(s[..t] + x)} :: inside(x) ==> field(s[..t] + x)
      else field(s[..t])
    }

    /** Skipping with groups open passes the rest of the innermost one, and then goes on. */
    lemma {:induction false} Parse(s: seq<byte>, pos: nat, d: nat, n: nat) returns (k: nat)
      requires Lawful() && d > 0 && skips(s, pos, d, n) && n <= pos + |s|
      ensures 0 < k <= |s| && inside(s[..k]) && Closed(s, pos, d, n, k)
      decreases |s|, 1
    {
      assert Steps(s, pos, d, n) && TokenLaw(s);
      if next(s).wireType == 4 {
        k := next(s).size;
      } else {
        var j := ParseField(s, pos, d, n);
        var more := Parse(s[j..], pos + j, d, n);
        k := j + more;
        assert s[..k] == s[..j] + s[j..][..more];
        assert s[j..][more..] == s[k..];
      }
    }

    lemma {:induction false} ParseField(s: seq<byte>, pos: nat, d: nat, n: nat) returns (j: nat)
      requires Lawful() && d > 0 && Steps(s, pos, d, n) && next(s).wireType != 4 && n <= pos + |s|
      ensures 0 < j <= |s| && field(s[..j]) && skips(s[j..], pos + j, d, n)
      decreases |s|, 0
    {
      var t := next(s).size;
      assert TokenLaw(s);
      j := t;
      if next(s).wireType == 3 {
        var k := Parse(s[t..], pos + t, d + 1, n);
        j := t + k;
        assert s[..j] == s[..t] + s[t..][..k];
        assert s[t..][k..] == s[j..];
      }
    }
  }

  ghost predicate Skips(next: Tokenizer, s: seq<byte>, pos: nat, d: nat, n: nat) {
    pos + |s| < TWO63 && SkipBy(next, s, pos, d) == Skipped(n)
  }

  ghost function Unknowns(next: Tokenizer): Grammar {
    Grammar(next, (s: seq<byte>, pos: nat, d: nat, n: nat) => Skips(next, s, pos, d, n),
            (s: seq<byte>) => IsField(s), (s: seq<byte>) => IsInside(s))
  }

  /** One token with a group open. */
  lemma SkipOpen(next: Tokenizer, s: seq<byte>, pos: nat, d: nat, n: nat)
    requires d > 0 && n <= pos + |s| && Skips(next, s, pos, d, n)
    ensures s != [] && next(s).Token? && next(s).size <= |s|
    ensures var Token(wireType, t) := next(s);
            var e := DepthAfter(wireType, d);
            if e == 0 then n == pos + t else Skips(next, s[t..], pos + t, e, n)
  {
  }

  /** The first token of a group. */
  lemma SkipOpening(next: Tokenizer, s: seq<byte>, n: nat)
    requires |s| < TWO63 && SkipBy(next, s, 0, 0) == Skipped(n) && n <= |s|
    ensures next(s).Token? && next(s).wireType != 4 && next(s).size <= n
    ensures var Token(wireType, t) := next(s); if wireType == 3 then Skips(next, s[t..], t, 1, n) else n == t
  {
    var Token(wireType, t) := next(s);
    if wireType == 3 {
      assert SkipBy(next, s[t..], t, 1) == Skipped(n);
    }
  }

  lemma SkipsToken(next: Tokenizer, s: seq<byte>, pos: nat, d: nat, n: nat)
    requires d > 0 && Unknowns(next).skips(s, pos, d, n) && n <= pos + |s|
    ensures Unknowns(next).Steps(s, pos, d, n)
  {
    SkipOpen(next, s, pos, d, n);
  }

  lemma InsidePrepended(f: seq<byte>, x: seq<byte>)
    requires IsField(f) && IsInside(x)
    ensures IsInside(f + x)
  {
    var u :| WellFormed(u) && Bytes(u) == f;
    var items, endTag :| InsideOf(x, items, endTag);
    assert ([u] + items)[1..] == items;
    assert f + (AllBytes(items) + endTag) == (f + AllBytes(items)) + endTag;
    assert InsideOf(f + x, [u] + items, endTag);
  }

  lemma GroupIsField(tag: seq<byte>, x: seq<byte>)
    requires IsTag(tag, 3) && IsInside(x)
    ensures IsField(tag + x)
  {
    var items, endTag :| InsideOf(x, items, endTag);
    var u := GroupField(tag, items, endTag);
    assert WellFormed(u) && Bytes(u) == tag + x;
  }

  lemma CloseIsInside(tag: seq<byte>)
    requires IsTag(tag, 4)
    ensures IsInside(tag)
  {
    assert AllBytes([]) + tag == tag;
    assert InsideOf(tag, [], tag);
  }

  lemma TokenIsLawful(s: seq<byte>)
    requires NextToken(s).Token? && NextToken(s).size <= |s|
    ensures Unknowns(NextToken).TokenLaw(s)
  {
    var Token(wireType, t) := NextToken(s);
    if wireType == 4 {
      MarkerTag(s);
      CloseIsInside(s[..t]);
    } else if wireType == 3 {
      MarkerTag(s);
      forall x | IsInside(x) ensures IsField(s[..t] + x) { GroupIsField(s[..t], x); }
    } else {
      var u := FlatField(s);
    }
  }

  lemma UnknownsLawful()
    ensures Unknowns(NextToken).Lawful()
  {
    var g := Unknowns(NextToken);
    forall s, pos: nat, d: nat, n: nat | g.skips(s, pos, d, n) && d > 0 && n <= pos + |s|
      ensures g.Steps(s, pos, d, n)
    {
      SkipsToken(NextToken, s, pos, d, n);
    }
    forall s | g.next(s).Token? && g.next(s).size <= |s| ensures g.TokenLaw(s) {
      TokenIsLawful(s);
    }
    forall f, x | g.field(f) && g.inside(x) ensures g.inside(f + x) {
      InsidePrepended(f, x);
    }
  }

  /** What skipping passes over is a field of the grammar. */
  lemma SkippedIsField(s: seq<byte>, n: nat)
    requires |s| < TWO63 && Skip(s) == Skipped(n) && n <= |s|
    ensures IsField(s[..n])
  {
    SkipOpening(NextToken, s, n);
    if NextToken(s).wireType == 3 {
      MarkerTag(s);
      OpenedIsField(s, NextToken(s).size, n);
    } else {
      var u := FlatField(s);
    }
  }

  lemma OpenedIsField(s: seq<byte>, t: nat, n: nat)
    requires t <= n <= |s| && IsTag(s[..t], 3) && Skips(NextToken, s[t..], t, 1, n)
    ensures IsField(s[..n])
  {
    var g := Unknowns(NextToken);
    UnknownsLawful();
    var k := g.Parse(s[t..], t, 1, n);
    GroupIsField(s[..t], s[t..][..k]);
    assert s[..n] == s[..t] + s[t..][..k];
  }

  /** Skipping passes over a prefix exactly if that prefix is one well-formed field. */
  lemma SkipExactly(s: seq<byte>, n: nat)
    requires |s| < TWO63 && n <= |s|
    ensures Skip(s) == Skipped(n) <==> IsField(s[..n])
  {
    if Skip(s) == Skipped(n) {
      SkippedIsField(s, n);
    }
    if IsField(s[..n]) {
      var u :| WellFormed(u) && Bytes(u) == s[..n];
      assert Bytes(u) + s[n..] == s;
      SkipUnknown(u, s[n..]);
    }
  }
}
