/** The flattened device tree: section 5.4 of the Devicetree Specification (Structure Block)
    against the flat token loop of `fdt_parse_node`. */
module FlattenedTree {
  import opened Bits
  import opened Words

  const FDT_BEGIN_NODE := 0x1
  const FDT_END_NODE := 0x2
  const FDT_PROP := 0x3
  const FDT_NOP := 0x4
  const FDT_END := 0x9

  datatype Property = Property(nameoff: nat, data: seq<byte>)

  /** A node: its properties come before its subnodes. */
  datatype Tree = Node(name: seq<byte>, props: seq<Property>, children: seq<Tree>)

  /** What a callback is told. */
  datatype Event = BeginNode(name: seq<byte>) | EndNode | Prop(nameoff: nat, data: seq<byte>)

  /** The tokens of a structure block. */
  datatype Token = Tell(event: Event) | Nop | End | Bad(code: nat)

  // ---------------------------------------------------------------- serialization

  predicate Fits(t: Token) {
    match t
    case Tell(BeginNode(name)) => 0 !in name && |name| + 4 < WORD
    case Tell(EndNode) => true
    case Tell(Prop(nameoff, data)) => nameoff < WORD && |data| + 3 < WORD
    case Nop => true
    case End => true
    case Bad(code) => code < WORD && code !in {FDT_BEGIN_NODE, FDT_END_NODE, FDT_PROP, FDT_NOP, FDT_END}
  }

  function Zeros(n: nat): (z: seq<byte>)
    ensures |z| == n
  {
    seq(n, _ => 0)
  }

  /** `s` padded with zeros to a multiple of four. */
  function Padded(s: seq<byte>): (r: seq<byte>)
    ensures |r| == (|s| + 3) / 4 * 4 && r[..|s|] == s
  {
    s + Zeros((|s| + 3) / 4 * 4 - |s|)
  }

  function Encode(t: Token): (r: seq<byte>)
    requires Fits(t)
    ensures |r| >= 4
  {
    match t
    case Tell(BeginNode(name)) => BigEndian(FDT_BEGIN_NODE) + Padded(name + [0])
    case Tell(EndNode) => BigEndian(FDT_END_NODE)
    case Tell(Prop(nameoff, data)) => BigEndian(FDT_PROP) + BigEndian(|data|) + BigEndian(nameoff) + Padded(data)
    case Nop => BigEndian(FDT_NOP)
    case End => BigEndian(FDT_END)
    case Bad(code) => BigEndian(code)
  }

  predicate AllFit(ts: seq<Token>) {
    forall i :: 0 <= i < |ts| ==> Fits(ts[i])
  }

  function EncodeAll(ts: seq<Token>): seq<byte>
    requires AllFit(ts)
  {
    if ts == [] then [] else EncodeAll(ts[..|ts| - 1]) + Encode(ts[|ts| - 1])
  }

  /** What the callback is told for a list of tokens. */
  function Events(ts: seq<Token>): seq<Event> {
    if ts == [] then []
    else Events(ts[..|ts| - 1]) + if ts[|ts| - 1].Tell? then [ts[|ts| - 1].event] else []
  }

  /** The encoding of token `i` sits between the encodings of the tokens around it. */
  lemma {:induction false} EncodingAt(ts: seq<Token>, i: nat)
    requires AllFit(ts) && i < |ts|
    ensures |EncodeAll(ts[..i])| + |Encode(ts[i])| == |EncodeAll(ts[..i + 1])| <= |EncodeAll(ts)|
    ensures EncodeAll(ts)[|EncodeAll(ts[..i])|..|EncodeAll(ts[..i + 1])|] == Encode(ts[i])
    decreases |ts|
  {
    hide Encode, Fits;
    var m := |ts| - 1;
    assert ts[..i + 1][..i] == ts[..i];
    if i == m {
      assert ts[..m + 1] == ts;
    } else {
      EncodingAt(ts[..m], i);
      assert ts[..m][..i] == ts[..i] && ts[..m][..i + 1] == ts[..i + 1];
    }
  }

  // ---------------------------------------------------------------- trees

  /** The pre-order traversal of a tree. */
  function TreeEvents(t: Tree): seq<Event>
    decreases t, 1
  {
    [BeginNode(t.name)] + PropEvents(t.props) + ForestEvents(t.children) + [EndNode]
  }

  function PropEvents(ps: seq<Property>): seq<Event> {
    if ps == [] then [] else [Prop(ps[0].nameoff, ps[0].data)] + PropEvents(ps[1..])
  }

  function ForestEvents(ts: seq<Tree>): seq<Event>
    decreases ts, 0
  {
    if ts == [] then [] else TreeEvents(ts[0]) + ForestEvents(ts[1..])
  }

  /** The tokens of a tree in the order the format prescribes. */
  function Flatten(t: Tree): seq<Token>
    decreases t, 1
  {
    [Tell(BeginNode(t.name))] + PropTokens(t.props) + FlattenAll(t.children) + [Tell(EndNode)]
  }

  function PropTokens(ps: seq<Property>): seq<Token> {
    if ps == [] then [] else [Tell(Prop(ps[0].nameoff, ps[0].data))] + PropTokens(ps[1..])
  }

  function FlattenAll(ts: seq<Tree>): seq<Token>
    decreases ts, 0
  {
    if ts == [] then [] else Flatten(ts[0]) + FlattenAll(ts[1..])
  }

  function WithoutNops(ts: seq<Token>): seq<Token> {
    if ts == [] then []
    else WithoutNops(ts[..|ts| - 1]) + if ts[|ts| - 1].Nop? then [] else [ts[|ts| - 1]]
  }

  /** A structure block for a tree: its tokens with any number of NOPs before, between and
      after them, and then the end token. */
  ghost predicate Serializes(ts: seq<Token>, t: Tree) {
    |ts| > 0 && ts[|ts| - 1] == End && WithoutNops(ts[..|ts| - 1]) == Flatten(t)
  }

  /** A structure block, byte by byte: a root with one property and one subnode, and a NOP. */
  lemma SampleBlock(ts: seq<Token>, t: Tree)
    requires t == Node([], [Property(27, [1, 2])], [Node([99], [], [])])
    requires ts == [Tell(BeginNode([])), Nop, Tell(Prop(27, [1, 2])), Tell(BeginNode([99])), Tell(EndNode),
                    Tell(EndNode), End]
    ensures Serializes(ts, t) && AllFit(ts)
    ensures EncodeAll(ts) == ([0, 0, 0, 1] + [0, 0, 0, 0])
                             + [0, 0, 0, 4]
                             + ([0, 0, 0, 3] + [0, 0, 0, 2] + [0, 0, 0, 27] + [1, 2, 0, 0])
                             + ([0, 0, 0, 1] + [99, 0, 0, 0])
                             + [0, 0, 0, 2] + [0, 0, 0, 2] + [0, 0, 0, 9]
  {
    SampleTokens(ts, t);
    SampleBytes();
    hide Encode;
    assert AllFit(ts);
    EncodeSeven(ts);
  }

  lemma SampleTokens(ts: seq<Token>, t: Tree)
    requires t == Node([], [Property(27, [1, 2])], [Node([99], [], [])])
    requires ts == [Tell(BeginNode([])), Nop, Tell(Prop(27, [1, 2])), Tell(BeginNode([99])), Tell(EndNode),
                    Tell(EndNode), End]
    ensures Serializes(ts, t)
  {
    assert ts[..6][..5] == ts[..5] && ts[..5][..4] == ts[..4] && ts[..4][..3] == ts[..3];
    assert ts[..3][..2] == ts[..2] && ts[..2][..1] == ts[..1];
    assert WithoutNops(ts[..2]) == WithoutNops(ts[..1]) == [ts[0]];
    assert WithoutNops(ts[..4]) == [ts[0], ts[2], ts[3]];
    assert Flatten(t.children[0]) == [ts[3], ts[4]];
  }

  lemma SampleBytes()
    ensures Encode(Tell(BeginNode([]))) == [0, 0, 0, 1] + [0, 0, 0, 0] && Encode(Nop) == [0, 0, 0, 4]
    ensures Encode(Tell(Prop(27, [1, 2]))) == [0, 0, 0, 3] + [0, 0, 0, 2] + [0, 0, 0, 27] + [1, 2, 0, 0]
    ensures Encode(Tell(BeginNode([99]))) == [0, 0, 0, 1] + [99, 0, 0, 0]
    ensures Encode(Tell(EndNode)) == [0, 0, 0, 2] && Encode(End) == [0, 0, 0, 9]
  {
    SamplePadding();
    hide Padded;
    assert [] + [0] == [0] && [99] + [0] == [99, 0];
  }

  lemma SamplePadding()
    ensures Padded([0]) == [0, 0, 0, 0] && Padded([99, 0]) == [99, 0, 0, 0] && Padded([1, 2]) == [1, 2, 0, 0]
  {
  }

  lemma EncodeSeven(ts: seq<Token>)
    requires AllFit(ts) && |ts| == 7
    ensures EncodeAll(ts) == Encode(ts[0]) + Encode(ts[1]) + Encode(ts[2]) + Encode(ts[3]) + Encode(ts[4])
                             + Encode(ts[5]) + Encode(ts[6])
  {
    hide Encode, Fits;
    assert ts[..6][..5] == ts[..5] && ts[..5][..4] == ts[..4] && ts[..4][..3] == ts[..3];
    assert ts[..3][..2] == ts[..2] && ts[..2][..1] == ts[..1];
    assert EncodeAll(ts[..1]) == Encode(ts[0]);
    assert EncodeAll(ts[..2]) == EncodeAll(ts[..1]) + Encode(ts[1]);
    assert EncodeAll(ts[..4]) == EncodeAll(ts[..2]) + Encode(ts[2]) + Encode(ts[3]);
    assert EncodeAll(ts[..6]) == EncodeAll(ts[..4]) + Encode(ts[4]) + Encode(ts[5]);
  }

  lemma {:induction false} EventsConcat(a: seq<Token>, b: seq<Token>)
    ensures Events(a + b) == Events(a) + Events(b)
    decreases |b|
  {
    if b == [] {
      assert a + b == a;
    } else {
      var m := |b| - 1;
      assert (a + b)[..|a + b| - 1] == a + b[..m];
      EventsConcat(a, b[..m]);
    }
  }

  lemma EventsOfOne(t: Token)
    ensures Events([t]) == if t.Tell? then [t.event] else []
  {
  }

  lemma {:induction false} EventsOfProps(ps: seq<Property>)
    ensures Events(PropTokens(ps)) == PropEvents(ps)
    ensures forall i :: 0 <= i < |PropTokens(ps)| ==> PropTokens(ps)[i].Tell?
  {
    if ps != [] {
      var first := Tell(Prop(ps[0].nameoff, ps[0].data));
      EventsOfProps(ps[1..]);
      EventsConcat([first], PropTokens(ps[1..]));
      EventsOfOne(first);
    }
  }

  lemma {:induction false} EventsOfTree(t: Tree)
    ensures Events(Flatten(t)) == TreeEvents(t)
    decreases t, 1
  {
    hide Events, PropTokens, PropEvents, FlattenAll, ForestEvents;
    var first, last := Tell(BeginNode(t.name)), Tell(EndNode);
    var p, c := PropTokens(t.props), FlattenAll(t.children);
    EventsOfProps(t.props);
    EventsOfForest(t.children);
    EventsOfOne(first);
    EventsOfOne(last);
    EventsConcat([first], p);
    EventsConcat([first] + p, c);
    EventsConcat([first] + p + c, [last]);
  }

  lemma {:induction false} EventsOfForest(ts: seq<Tree>)
    ensures Events(FlattenAll(ts)) == ForestEvents(ts)
    decreases ts, 0
  {
    if ts != [] {
      EventsOfTree(ts[0]);
      EventsOfForest(ts[1..]);
      EventsConcat(Flatten(ts[0]), FlattenAll(ts[1..]));
    }
  }

  lemma {:induction false} NopsAreSilent(ts: seq<Token>)
    ensures Events(WithoutNops(ts)) == Events(ts)
  {
    if ts != [] {
      var m := |ts| - 1;
      NopsAreSilent(ts[..m]);
      if ts[m].Nop? {
        assert WithoutNops(ts) == WithoutNops(ts[..m]);
      } else {
        EventsConcat(WithoutNops(ts[..m]), [ts[m]]);
        EventsOfOne(ts[m]);
      }
    }
  }

  lemma {:induction false} OnlyTellsAndNops(ts: seq<Token>)
    requires forall i :: 0 <= i < |WithoutNops(ts)| ==> WithoutNops(ts)[i].Tell?
    ensures forall i :: 0 <= i < |ts| ==> ts[i].Tell? || ts[i].Nop?
  {
    if ts != [] {
      var m := |ts| - 1;
      var w := WithoutNops(ts);
      assert forall i :: 0 <= i < |WithoutNops(ts[..m])| ==> w[i] == WithoutNops(ts[..m])[i];
      OnlyTellsAndNops(ts[..m]);
      if !ts[m].Nop? {
        assert w[|w| - 1] == ts[m];
      }
      assert forall i :: 0 <= i < m ==> ts[i] == ts[..m][i];
    }
  }

  lemma {:induction false} FlattenTells(t: Tree)
    ensures forall i :: 0 <= i < |Flatten(t)| ==> Flatten(t)[i].Tell?
    decreases t, 1
  {
    FlattenAllTells(t.children);
    EventsOfProps(t.props);
  }

  lemma {:induction false} FlattenAllTells(ts: seq<Tree>)
    ensures forall i :: 0 <= i < |FlattenAll(ts)| ==> FlattenAll(ts)[i].Tell?
    decreases ts, 0
  {
    if ts != [] {
      FlattenTells(ts[0]);
      FlattenAllTells(ts[1..]);
    }
  }

  /** The tokens of a serialized tree tell its pre-order events and stop at the end token. */
  lemma {:induction false} SerializedEvents(ts: seq<Token>, t: Tree)
    requires Serializes(ts, t)
    ensures Events(ts) == TreeEvents(t)
    ensures forall i :: 0 <= i < |ts| - 1 ==> ts[i].Tell? || ts[i].Nop?
  {
    hide WithoutNops, Flatten, TreeEvents;
    var body := ts[..|ts| - 1];
    EventsOfTree(t);
    NopsAreSilent(body);
    FlattenTells(t);
    OnlyTellsAndNops(body);
    assert forall i :: 0 <= i < |ts| - 1 ==> ts[i] == body[i];
  }

  // ---------------------------------------------------------------- the token loop

  function Code(t: Token): nat {
    match t
    case Tell(BeginNode(_)) => FDT_BEGIN_NODE
    case Tell(EndNode) => FDT_END_NODE
    case Tell(Prop(_, _)) => FDT_PROP
    case Nop => FDT_NOP
    case End => FDT_END
    case Bad(code) => code
  }

  ghost predicate TokenAt(mem: seq<byte>, q: nat, t: Token) {
    Fits(t) && q + |Encode(t)| <= |mem| && mem[q..q + |Encode(t)|] == Encode(t)
  }

  lemma EncodeStarts(t: Token)
    requires Fits(t)
    ensures Code(t) < WORD && Encode(t)[0..4] == BigEndian(Code(t))
  {
  }

  lemma CodeRead(mem: seq<byte>, q: nat, t: Token)
    requires TokenAt(mem, q, t)
    ensures q + 4 <= |mem| && ReadWord(mem, q) == Code(t)
  {
    hide Encode;
    Slice(mem, q, Encode(t), 0, 4);
    EncodeStarts(t);
    ReadsBack(mem, q, Code(t));
  }

  /** A node's name as it lies in memory, and how far the padded name reaches. */
  lemma NameRead(mem: seq<byte>, q: nat, name: seq<byte>)
    requires TokenAt(mem, q, Tell(BeginNode(name)))
    ensures |Encode(Tell(BeginNode(name)))| == 4 + Align(|name| + 1, 4)
    ensures q + 4 + |name| < |mem| && mem[q + 4..q + 4 + |name|] == name && mem[q + 4 + |name|] == 0
  {
    hide BigEndian, Align, Padded;
    var e, z := Encode(Tell(BeginNode(name))), name + [0];
    AlignFour(|name| + 1);
    Slice(mem, q, e, 4, 4 + |z|);
    assert e[4..4 + |z|] == Padded(z)[..|z|] == z;
    Slice(mem, q + 4, z, 0, |name|);
    Slice(mem, q + 4, z, |name|, |z|);
    assert z[..|name|] == name;
    assert mem[q + 4 + |name|] == mem[q + 4 + |name|..q + 4 + |z|][0] == z[|name|];
  }

  /** A property's two words and its value as they lie in memory. */
  lemma PropRead(mem: seq<byte>, q: nat, nameoff: nat, data: seq<byte>)
    requires TokenAt(mem, q, Tell(Prop(nameoff, data)))
    ensures |Encode(Tell(Prop(nameoff, data)))| == 12 + Align(|data|, 4)
    ensures q + 12 + |data| <= |mem| && ReadWord(mem, q + 4) == |data| && ReadWord(mem, q + 8) == nameoff
    ensures mem[q + 12..q + 12 + |data|] == data
  {
    hide BigEndian, Align, ReadWord, Padded;
    var e := Encode(Tell(Prop(nameoff, data)));
    var a, b, c, d := BigEndian(FDT_PROP), BigEndian(|data|), BigEndian(nameoff), Padded(data);
    AlignFour(|data|);
    assert e == a + (b + (c + d));
    Slice(mem, q, e, 4, 8);
    Slice(mem, q, e, 8, 12);
    Slice(mem, q, e, 12, 12 + |data|);
    assert e[4..] == b + (c + d) && e[8..] == c + d && e[12..] == d;
    assert e[4..8] == e[4..][..4] == b && e[8..12] == e[8..][..4] == c;
    assert e[12..12 + |data|] == e[12..][..|data|] == d[..|data|];
    ReadsBack(mem, q + 4, |data|);
    ReadsBack(mem, q + 8, nameoff);
  }

  lemma NoZeroIn(mem: seq<byte>, p: nat, n: nat)
    requires p + n < |mem| && 0 !in mem[p..p + n]
    ensures forall i {:trigger mem[i]} :: p <= i < p + n ==> mem[i] != 0
  {
  }

  method StrLen(mem: seq<byte>, p: nat, ghost n: nat) returns (len: nat)
    requires p + n < |mem| && mem[p + n] == 0 && 0 !in mem[p..p + n]
    ensures len == n
  {
    NoZeroIn(mem, p, n);
    len := 0;
    while mem[p + len] != 0
      invariant len <= n
      decreases n - len
    {
      len := len + 1;
    }
  }

  /** One token: where it ends, and what it is.  The caller passes the token that the bytes
      encode; the code only looks at the bytes. */
  method ReadToken(mem: seq<byte>, q: nat, ghost t: Token) returns (code: nat, event: Event, next: nat)
    requires TokenAt(mem, q, t)
    ensures code == Code(t) && next == q + |Encode(t)|
    ensures t.Tell? ==> event == t.event
  {
    hide Encode, TokenAt, ReadWord, Align;
    CodeRead(mem, q, t);
    code := ReadWord(mem, q);
    next := q + 4;
    event := EndNode;
    FitsOf(mem, q, t);
    EncodedLength(t);
    if code == FDT_BEGIN_NODE {
      NameRead(mem, q, t.event.name);
      var len := StrLen(mem, next, |t.event.name|);
      event := BeginNode(mem[next..next + len]);
      next := next + Align(len + 1, 4);
    } else if code == FDT_PROP {
      PropRead(mem, q, t.event.nameoff, t.event.data);
      var len := ReadWord(mem, next);
      var nameoff := ReadWord(mem, next + 4);
      event := Prop(nameoff, mem[next + 8..next + 8 + len]);
      next := next + 8 + Align(len, 4);
    }
  }

  lemma FitsOf(mem: seq<byte>, q: nat, t: Token)
    requires TokenAt(mem, q, t)
    ensures Fits(t)
  {
  }

  lemma EncodedLength(t: Token)
    ensures Fits(t) && Code(t) != FDT_BEGIN_NODE && Code(t) != FDT_PROP ==> |Encode(t)| == 4
    ensures Code(t) == FDT_BEGIN_NODE && Fits(t) ==> t.Tell? && t.event.BeginNode?
    ensures Code(t) == FDT_PROP && Fits(t) ==> t.Tell? && t.event.Prop?
    ensures Code(t) == FDT_END_NODE && Fits(t) ==> t.Tell? && t.event == EndNode
    ensures Code(t) == FDT_NOP && Fits(t) ==> t == Nop
    ensures Code(t) == FDT_END && Fits(t) ==> t == End
    ensures Code(t) !in {FDT_BEGIN_NODE, FDT_END_NODE, FDT_PROP, FDT_NOP, FDT_END} ==> t.Bad?
  {
  }

  /** A list of tokens that ends at its first end token or bad token. */
  ghost predicate Stream(ts: seq<Token>) {
    && AllFit(ts) && |ts| > 0 && !ts[|ts| - 1].Tell? && !ts[|ts| - 1].Nop?
    && forall i :: 0 <= i < |ts| - 1 ==> ts[i].Tell? || ts[i].Nop?
  }

  /** Whether the callback rejects the event of token `i`, given everything told so far. */
  ghost predicate RejectsAt(ts: seq<Token>, reject: seq<Event> -> bool, i: nat)
    requires i < |ts|
  {
    ts[i].Tell? && reject(Events(ts[..i + 1]))
  }

  /** How many tokens are consumed: up to and including the first one whose event the callback
      rejects, or all of them. */
  ghost function Consumed(ts: seq<Token>, reject: seq<Event> -> bool, from: nat): (n: nat)
    requires from < |ts|
    ensures from < n <= |ts| && forall i :: from <= i < n - 1 ==> !RejectsAt(ts, reject, i)
    ensures RejectsAt(ts, reject, n - 1) || n == |ts|
    decreases |ts| - from
  {
    if RejectsAt(ts, reject, from) || from + 1 == |ts| then from + 1 else Consumed(ts, reject, from + 1)
  }

  /** `fdt_parse_node` on the bytes of `ts`.  The callback may depend on everything it has
      been told. */
  method ParseNode(mem: seq<byte>, ptr: nat, reject: seq<Event> -> bool, ghost ts: seq<Token>)
    returns (ret: int, next: nat, told: seq<Event>)
    requires Stream(ts) && ptr + |EncodeAll(ts)| <= |mem| && mem[ptr..ptr + |EncodeAll(ts)|] == EncodeAll(ts)
    ensures var n := Consumed(ts, reject, 0);
      && next == ptr + |EncodeAll(ts[..n])|
      && told == Events(ts[..n])
      && ret == if ts[n - 1] == End then 0 else -1
  {
    hide EncodeAll, Encode, TokenAt;
    next, told := ptr, [];
    ghost var n: nat := 0;
    EmptyStream(ts);
    while true
      invariant n < |ts| && next == ptr + |EncodeAll(ts[..n])| && told == Events(ts[..n])
      invariant Consumed(ts, reject, n) == Consumed(ts, reject, 0)
      decreases |ts| - n
    {
      NextToken(mem, ptr, ts, n);
      EncodedLength(ts[n]);
      var token, event: Event;
      token, event, next := ReadToken(mem, next, ts[n]);
      n := n + 1;
      assert ts[..n][..n - 1] == ts[..n - 1];
      if token == FDT_BEGIN_NODE || token == FDT_END_NODE || token == FDT_PROP {
        told := told + [event];
        if reject(told) {
          return -1, next, told;
        }
      } else if token == FDT_NOP {
      } else if token == FDT_END {
        return 0, next, told;
      } else {
        return -1, next, told;
      }
    }
  }

  lemma EmptyStream(ts: seq<Token>)
    requires AllFit(ts)
    ensures ts[..0] == [] && EncodeAll(ts[..0]) == []
  {
  }

  lemma NextToken(mem: seq<byte>, ptr: nat, ts: seq<Token>, n: nat)
    requires AllFit(ts) && n < |ts| && ptr + |EncodeAll(ts)| <= |mem|
      && mem[ptr..ptr + |EncodeAll(ts)|] == EncodeAll(ts)
    ensures TokenAt(mem, ptr + |EncodeAll(ts[..n])|, ts[n]) && Fits(ts[n])
    ensures |EncodeAll(ts[..n])| + |Encode(ts[n])| == |EncodeAll(ts[..n + 1])|
  {
    hide EncodeAll, Encode, Fits;
    EncodingAt(ts, n);
    var a, b := |EncodeAll(ts[..n])|, |EncodeAll(ts[..n + 1])|;
    Slice(mem, ptr, EncodeAll(ts), a, b);
  }

  /** For every serialized tree, a callback that accepts everything hears exactly the pre-order
      events, and the cursor ends just past the end token. */
  method WalkTree(mem: seq<byte>, ptr: nat, ghost ts: seq<Token>, ghost tree: Tree)
    returns (ret: int, next: nat, told: seq<Event>)
    requires Serializes(ts, tree) && AllFit(ts)
    requires ptr + |EncodeAll(ts)| <= |mem| && mem[ptr..ptr + |EncodeAll(ts)|] == EncodeAll(ts)
    ensures ret == 0 && told == TreeEvents(tree) && next == ptr + |EncodeAll(ts)|
  {
    hide EncodeAll, TreeEvents, WithoutNops;
    SerializedEvents(ts, tree);
    var accept := (es: seq<Event>) => false;
    ret, next, told := ParseNode(mem, ptr, accept, ts);
    assert !RejectsAt(ts, accept, Consumed(ts, accept, 0) - 1);
    assert ts[..|ts|] == ts;
  }

  // ---------------------------------------------------------------- nothing is lost

  /** Rebuilding trees from events with a stack of open nodes, innermost first. */
  function Rebuild(es: seq<Event>, open: seq<Tree>, done: seq<Tree>): seq<Tree>
    decreases |es|
  {
    if es == [] then done
    else
      match es[0]
      case BeginNode(name) => Rebuild(es[1..], [Node(name, [], [])] + open, done)
      case Prop(nameoff, data) =>
        if open == [] then done
        else Rebuild(es[1..], [open[0].(props := open[0].props + [Property(nameoff, data)])] + open[1..], done)
      case EndNode =>
        if open == [] then done
        else if |open| == 1 then Rebuild(es[1..], [], done + [open[0]])
        else Rebuild(es[1..], [open[1].(children := open[1].children + [open[0]])] + open[2..], done)
  }

  lemma RebuildProp(p: Property, rest: seq<Event>, open: seq<Tree>, done: seq<Tree>)
    requires open != []
    ensures Rebuild([Prop(p.nameoff, p.data)] + rest, open, done)
      == Rebuild(rest, [open[0].(props := open[0].props + [p])] + open[1..], done)
  {
  }

  lemma {:induction false} RebuildProps(ps: seq<Property>, rest: seq<Event>, open: seq<Tree>, done: seq<Tree>)
    requires open != []
    ensures Rebuild(PropEvents(ps) + rest, open, done)
      == Rebuild(rest, [open[0].(props := open[0].props + ps)] + open[1..], done)
    decreases |ps|
  {
    hide Rebuild;
    if ps == [] {
      assert PropEvents(ps) + rest == rest;
      assert open[0].props + ps == open[0].props && [open[0]] + open[1..] == open;
    } else {
      var open' := [open[0].(props := open[0].props + [ps[0]])] + open[1..];
      assert PropEvents(ps) + rest == [Prop(ps[0].nameoff, ps[0].data)] + (PropEvents(ps[1..]) + rest);
      RebuildProp(ps[0], PropEvents(ps[1..]) + rest, open, done);
      RebuildProps(ps[1..], rest, open', done);
      assert open[0].props + [ps[0]] + ps[1..] == open[0].props + ps;
      assert open'[1..] == open[1..];
    }
  }

  /** Where a finished tree goes. */
  function Attach(t: Tree, open: seq<Tree>): seq<Tree> {
    if open == [] then [] else [open[0].(children := open[0].children + [t])] + open[1..]
  }

  lemma {:induction false} RebuildTree(t: Tree, rest: seq<Event>, open: seq<Tree>, done: seq<Tree>)
    ensures Rebuild(TreeEvents(t) + rest, open, done)
      == Rebuild(rest, Attach(t, open), if open == [] then done + [t] else done)
    decreases t, 1
  {
    hide PropEvents, ForestEvents;
    var es := TreeEvents(t) + rest;
    var p, c := PropEvents(t.props), ForestEvents(t.children);
    var open1 := [Node(t.name, [], [])] + open;
    assert es[0] == BeginNode(t.name) && es[1..] == p + (c + ([EndNode] + rest));
    RebuildProps(t.props, c + ([EndNode] + rest), open1, done);
    assert open1[1..] == open && [] + t.props == t.props;
    var open2 := [Node(t.name, t.props, [])] + open;
    RebuildForest(t.children, [EndNode] + rest, open2, done);
    assert open2[1..] == open && [] + t.children == t.children;
    RebuildEnd(t, rest, open, done);
  }

  lemma RebuildEnd(t: Tree, rest: seq<Event>, open: seq<Tree>, done: seq<Tree>)
    ensures Rebuild([EndNode] + rest, [t] + open, done)
      == Rebuild(rest, Attach(t, open), if open == [] then done + [t] else done)
  {
    var es, o := [EndNode] + rest, [t] + open;
    assert es[1..] == rest;
    if open != [] {
      assert o[1] == open[0] && o[2..] == open[1..];
    }
  }

  lemma {:induction false} RebuildForest(ts: seq<Tree>, rest: seq<Event>, open: seq<Tree>, done: seq<Tree>)
    requires open != []
    ensures Rebuild(ForestEvents(ts) + rest, open, done)
      == Rebuild(rest, [open[0].(children := open[0].children + ts)] + open[1..], done)
    decreases ts, 0
  {
    hide Rebuild, TreeEvents;
    if ts == [] {
      assert ForestEvents(ts) + rest == rest;
      assert open[0].children + ts == open[0].children && [open[0]] + open[1..] == open;
    } else {
      var more := ForestEvents(ts[1..]) + rest;
      assert ForestEvents(ts) + rest == TreeEvents(ts[0]) + more;
      RebuildTree(ts[0], more, open, done);
      var open' := Attach(ts[0], open);
      RebuildForest(ts[1..], rest, open', done);
      assert open'[1..] == open[1..];
      assert open[0].children + [ts[0]] + ts[1..] == open[0].children + ts;
    }
  }

  /** The events determine the tree: different trees are told differently. */
  lemma EventsDetermineTree(t: Tree)
    ensures Rebuild(TreeEvents(t), [], []) == [t]
  {
    hide TreeEvents;
    assert TreeEvents(t) + [] == TreeEvents(t);
    RebuildTree(t, [], [], []);
    assert [] + [t] == [t];
  }
}
