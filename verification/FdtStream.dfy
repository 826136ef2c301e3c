/**
 The tag stream of a flattened device tree, and how `fdt_find_regions` navigates it: which tags
 it includes, tag by tag, with a path buffer and a stack. The reference is a recursive reading
 of the tree itself.
 */
module FdtStream {
  const MAX_DEPTH: nat := 32
  const ERR_NOSPACE: nat := 3
  const ERR_BADSTRUCTURE: nat := 11
  const ERR_BADLAYOUT: nat := 12

  type Bytes = seq<nat>

  /** A property's name, unless its offset points outside the string table. */
  datatype Name = Known(s: string) | Missing

  /** One tag with the bytes it occupies in the structure block. */
  datatype Token =
    | BeginNode(name: string, bytes: Bytes)
    | EndNode(bytes: Bytes)
    | Prop(prop: Name, bytes: Bytes)
    | Nop(bytes: Bytes)
    | End(bytes: Bytes)

  datatype Config = Config(inc: seq<string>, exc: seq<string>, pathLen: nat)

  /** `want`, the saved wants of the open nodes, the text in the path buffer, and `expect_end`. */
  datatype Nav = Nav(want: nat, stack: seq<nat>, path: string, expectEnd: bool)

  datatype Move = Move(nav: Nav, included: bool) | Fail(code: nat)

  const ROOT: Nav := Nav(0, [], "", false)

  /** `while (end > path && *--end != '/')`, then the string is cut there. */
  function Pop(path: string): (r: string)
    ensures r <= path
  {
    if path == "" then ""
    else
      var front := path[..|path| - 1];
      if path[|path| - 1] == '/' then front else Pop(front)
  }

  /** The path buffer after `name` is appended. */
  function Push(path: string, name: string): string {
    (if |path| != 1 then path + "/" else path) + name
  }

  function NewWant(cfg: Config, path: string, want: nat): nat {
    if path in cfg.inc then 2 else if want > 0 then want - 1 else 0
  }

  /** One round of the scan, up to the decision whether to include the tag. */
  function Step(cfg: Config, nav: Nav, tok: Token): Move {
    if nav.expectEnd && !tok.End? then Fail(ERR_BADLAYOUT)
    else match tok
      case Prop(name, _) =>
        if name.Missing? then Fail(ERR_BADSTRUCTURE) else Move(nav, nav.want >= 2 && name.s !in cfg.exc)
      case Nop(_) => Move(nav, nav.want >= 2)
      case BeginNode(name, _) =>
        if |nav.stack| == MAX_DEPTH then Fail(ERR_BADSTRUCTURE)
        else if nav.stack == [] && name != "" then Fail(ERR_BADLAYOUT)
        else if |nav.path| + 2 + |name| >= cfg.pathLen then Fail(ERR_NOSPACE)
        else
          var path := Push(nav.path, name);
          var want := NewWant(cfg, path, nav.want);
          Move(Nav(want, nav.stack + [nav.want], path, false), want > 0)
      case EndNode(_) =>
        if nav.stack == [] then Fail(ERR_BADSTRUCTURE)
        else
          var n := |nav.stack| - 1;
          Move(Nav(nav.stack[n], nav.stack[..n], Pop(nav.path), n == 0), nav.want > 0)
      case End(_) => Move(nav, true)
  }

  /** What the scan says about the tags from `nav` on: an error, or one flag per tag up to the END tag. */
  datatype Outcome = Error(code: nat) | Flags(included: seq<bool>)

  function Scan(cfg: Config, nav: Nav, toks: seq<Token>): (r: Outcome)
    ensures r.Flags? ==> 0 < |r.included| <= |toks| && toks[|r.included| - 1].End? && r.included[|r.included| - 1]
    decreases |toks|
  {
    if toks == [] then Error(ERR_BADLAYOUT)
    else match Step(cfg, nav, toks[0])
      case Fail(code) => Error(code)
      case Move(next, included) =>
        if toks[0].End? then Flags([included])
        else match Scan(cfg, next, toks[1..])
          case Error(code) => Error(code)
          case Flags(rest) => Flags([included] + rest)
  }

  // ---------- the tree and its recursive reading ----------

  /** The content of a node, in document order. */
  datatype Items =
    | Empty
    | PropItem(prop: Name, bytes: Bytes, rest: Items)
    | NopItem(bytes: Bytes, rest: Items)
    | NodeItem(name: string, begin: Bytes, body: Items, end: Bytes, rest: Items)

  /** NOP tags, the root node and the END tag. */
  datatype Doc = Doc(nops: seq<Bytes>, begin: Bytes, body: Items, close: Bytes, end: Bytes)

  /** Node names are not empty and hold no '/' (section 2.2.1 of the Devicetree Specification). */
  predicate WellNamed(items: Items) {
    match items
    case Empty => true
    case PropItem(_, _, rest) => WellNamed(rest)
    case NopItem(_, rest) => WellNamed(rest)
    case NodeItem(name, _, body, _, rest) => name != "" && '/' !in name && WellNamed(body) && WellNamed(rest)
  }

  function Flatten(items: Items): seq<Token> {
    match items
    case Empty => []
    case PropItem(name, bytes, rest) => [Prop(name, bytes)] + Flatten(rest)
    case NopItem(bytes, rest) => [Nop(bytes)] + Flatten(rest)
    case NodeItem(name, begin, body, end, rest) =>
      [BeginNode(name, begin)] + Flatten(body) + [EndNode(end)] + Flatten(rest)
  }

  function Nops(nops: seq<Bytes>): (r: seq<Token>)
    ensures |r| == |nops|
  {
    if nops == [] then [] else [Nop(nops[0])] + Nops(nops[1..])
  }

  function DocTokens(doc: Doc): seq<Token> { Nops(doc.nops) + RootTokens(doc) + [End(doc.end)] }

  function RootTokens(doc: Doc): seq<Token> {
    [BeginNode("", doc.begin)] + Flatten(doc.body) + [EndNode(doc.close)]
  }

  /** The full path of a child. */
  function ChildPath(path: string, name: string): string {
    if path == "/" then "/" + name else path + "/" + name
  }

  /**
   Which tags of the content of the node at `path` belong to the selection. A node keeps its NOPs and its
   properties, except the excluded ones, exactly if its own path is listed. A node's own two tags are kept
   exactly if its path or its parent's is listed.
   */
  function Included(cfg: Config, items: Items, path: string): (r: seq<bool>)
    ensures |r| == |Flatten(items)|
  {
    match items
    case Empty => []
    case PropItem(name, _, rest) => [path in cfg.inc && name.Known? && name.s !in cfg.exc] + Included(cfg, rest, path)
    case NopItem(_, rest) => [path in cfg.inc] + Included(cfg, rest, path)
    case NodeItem(name, _, body, _, rest) =>
      var child := ChildPath(path, name);
      var tags := child in cfg.inc || path in cfg.inc;
      [tags] + Included(cfg, body, child) + [tags] + Included(cfg, rest, path)
  }

  /** The root's own tags are kept exactly if "/" is listed, and the END tag always is. */
  function DocIncluded(cfg: Config, doc: Doc): (r: seq<bool>)
    ensures |r| == |DocTokens(doc)|
  {
    var tags := "/" in cfg.inc;
    NotIncluded(|doc.nops|) + ([tags] + Included(cfg, doc.body, "/") + [tags]) + [true]
  }

  function NotIncluded(n: nat): (r: seq<bool>)
    ensures |r| == n
  {
    if n == 0 then [] else [false] + NotIncluded(n - 1)
  }

  /** The path buffer in a node: its path, but nothing in the root once its first child has been left. */
  function Buffer(path: string, first: bool): string {
    if path == "/" && !first then "" else path
  }

  /**
   The error of the first item that has one, in document order, or 0. A property must have a name. A node must
   be at most `depth` deep, and there must be room for its name behind what the buffer holds: the parent's path,
   except that the root's later children find it empty. `first` says that no child has come yet.
   */
  function Refusal(cfg: Config, items: Items, path: string, first: bool, depth: nat): nat {
    match items
    case Empty => 0
    case PropItem(name, _, rest) => if name.Missing? then ERR_BADSTRUCTURE else Refusal(cfg, rest, path, first, depth)
    case NopItem(_, rest) => Refusal(cfg, rest, path, first, depth)
    case NodeItem(name, _, body, _, rest) =>
      if depth == 0 then ERR_BADSTRUCTURE
      else if |Buffer(path, first)| + 2 + |name| >= cfg.pathLen then ERR_NOSPACE
      else
        var inner := Refusal(cfg, body, ChildPath(path, name), true, depth - 1);
        if inner != 0 then inner else Refusal(cfg, rest, path, false, depth)
  }

  function DocRefusal(cfg: Config, doc: Doc): nat {
    if cfg.pathLen <= 2 then ERR_NOSPACE else Refusal(cfg, doc.body, "/", true, MAX_DEPTH - 1)
  }

  // ---------- the scan reads the tree ----------

  predicate NodePath(path: string) { path == "/" || 2 <= |path| }

  function Prepend(flags: seq<bool>, r: Outcome): Outcome {
    if r.Error? then r else Flags(flags + r.included)
  }

  lemma {:induction false} PopName(prefix: string, name: string)
    requires '/' !in name
    ensures Pop(prefix + "/" + name) == prefix
    decreases |name|
  {
    var path := prefix + "/" + name;
    if name == "" {
      assert path[..|path| - 1] == prefix;
    } else {
      assert path[..|path| - 1] == prefix + "/" + name[..|name| - 1];
      PopName(prefix, name[..|name| - 1]);
    }
  }

  /** Entering and leaving a child: the buffer holds its path in between and the parent's after. */
  lemma PushPop(path: string, first: bool, name: string)
    requires NodePath(path) && name != "" && '/' !in name
    ensures Push(Buffer(path, first), name) == ChildPath(path, name) && 2 <= |ChildPath(path, name)|
    ensures Pop(ChildPath(path, name)) == Buffer(path, false)
  {
    PopName(if path == "/" then "" else path, name);
    assert "" + "/" + name == "/" + name;
  }

  lemma ScanStep(cfg: Config, nav: Nav, tok: Token, more: seq<Token>)
    requires !tok.End?
    ensures var m := Step(cfg, nav, tok);
            Scan(cfg, nav, [tok] + more) == if m.Fail? then Error(m.code)
                else Prepend([m.included], Scan(cfg, m.nav, more))
  {
    assert ([tok] + more)[1..] == more;
  }

  lemma PrependTwice(a: seq<bool>, b: seq<bool>, r: Outcome)
    ensures Prepend(a, Prepend(b, r)) == Prepend(a + b, r)
  {
    if r.Flags? { assert a + (b + r.included) == (a + b) + r.included; }
  }

  /** A property or a NOP in front of tags that have been scanned. */
  lemma ScanLeaf(cfg: Config, nav: Nav, tok: Token, tail: seq<Token>, flags: seq<bool>, r: Outcome)
    requires (tok.Prop? && tok.prop.Known?) || tok.Nop?
    requires !nav.expectEnd
    ensures var flag := nav.want >= 2 && (tok.Prop? ==> tok.prop.s !in cfg.exc);
            && (Scan(cfg, nav, tail) == Prepend(flags, r) ==>
                Scan(cfg, nav, [tok] + tail) == Prepend([flag] + flags, r))
            && (Scan(cfg, nav, tail).Error? ==> Scan(cfg, nav, [tok] + tail) == Scan(cfg, nav, tail))
  {
    var flag := nav.want >= 2 && (tok.Prop? ==> tok.prop.s !in cfg.exc);
    ScanStep(cfg, nav, tok, tail);
    PrependTwice([flag], flags, r);
  }

  lemma ScanLeafItem(cfg: Config, nav: Nav, tok: Token, items: Items, rest: Items, more: seq<Token>, flags: seq<bool>,
                     r: Outcome)
    requires ((tok.Prop? && tok.prop.Known?) || tok.Nop?) && !nav.expectEnd && Flatten(items) == [tok] + Flatten(rest)
    ensures var flag := nav.want >= 2 && (tok.Prop? ==> tok.prop.s !in cfg.exc);
            var (part, all) := (Scan(cfg, nav, Flatten(rest) + more), Scan(cfg, nav, Flatten(items) + more));
            (part == Prepend(flags, r) ==> all == Prepend([flag] + flags, r)) && (part.Error? ==> all == part)
  {
    Assoc([tok], Flatten(rest), more);
    ScanLeaf(cfg, nav, tok, Flatten(rest) + more, flags, r);
  }

  lemma Assoc(a: seq<Token>, b: seq<Token>, c: seq<Token>)
    ensures (a + b) + c == a + (b + c)
  {
  }

  /**
   The scan is in a node, `depth` levels above the limit, with the node's path in the buffer, and wants
   the node fully exactly if the path is listed.
   */
  predicate In(cfg: Config, nav: Nav, path: string, first: bool, depth: nat) {
    && nav.want <= 2 && (nav.want == 2 <==> path in cfg.inc)
    && nav.path == Buffer(path, first) && NodePath(path)
    && nav.stack != [] && !nav.expectEnd && |nav.stack| + depth == MAX_DEPTH
  }

  /** Scanning `items` gives their recursive reading and goes on as `after`, or reports the first limit broken. */
  predicate Reads(cfg: Config, items: Items, path: string, first: bool, depth: nat, r: Outcome, after: Outcome) {
    var code := Refusal(cfg, items, path, first, depth);
    r == if code == 0 then Prepend(Included(cfg, items, path), after) else Error(code)
  }

  /**
   Over the tags of a node's content the scan yields the recursive reading and comes back to
   where it was, or stops at the first limit that is broken.
   */
  lemma {:induction false} ScanItems(cfg: Config, nav: Nav, items: Items, path: string, first: bool, depth: nat,
                                     more: seq<Token>)
    returns (after: Nav)
    requires WellNamed(items) && In(cfg, nav, path, first, depth)
    ensures after == nav.(path := after.path)
    ensures after.path == Buffer(path, first) || after.path == Buffer(path, false)
    ensures Reads(cfg, items, path, first, depth, Scan(cfg, nav, Flatten(items) + more), Scan(cfg, after, more))
    decreases items
  {
    after := nav;
    match items
    case Empty =>
      assert Flatten(items) + more == more;
      var r := Scan(cfg, nav, more);
      assert r.Flags? ==> [] + r.included == r.included;
    case PropItem(name, bytes, rest) =>
      after := ScanItems(cfg, nav, rest, path, first, depth, more);
      if name.Known? {
        ScanLeafItem(cfg, nav, Prop(name, bytes), items, rest, more, Included(cfg, rest, path), Scan(cfg, after, more));
      } else {
        Assoc([Prop(name, bytes)], Flatten(rest), more);
        ScanStep(cfg, nav, Prop(name, bytes), Flatten(rest) + more);
      }
    case NopItem(bytes, rest) =>
      after := ScanItems(cfg, nav, rest, path, first, depth, more);
      ScanLeafItem(cfg, nav, Nop(bytes), items, rest, more, Included(cfg, rest, path), Scan(cfg, after, more));
    case NodeItem(name, begin, body, end, rest) =>
      var inner := [EndNode(end)] + (Flatten(rest) + more);
      assert Flatten(items) + more == [BeginNode(name, begin)] + (Flatten(body) + inner);
      ScanStep(cfg, nav, BeginNode(name, begin), Flatten(body) + inner);
      if Step(cfg, nav, BeginNode(name, begin)).Move? {
        after := ScanNode(cfg, nav, items, path, first, depth, more);
      }
  }

  /** What the scan makes of a child node from its content on. */
  function Inner(items: Items, more: seq<Token>): seq<Token>
    requires items.NodeItem?
  {
    Flatten(items.body) + ([EndNode(items.end)] + (Flatten(items.rest) + more))
  }

  /** The BEGIN tag of a child that passes the limits. */
  lemma NodeEntered(cfg: Config, nav: Nav, name: string, begin: Bytes, path: string, first: bool, depth: nat)
    returns (inside: Nav)
    requires In(cfg, nav, path, first, depth) && name != "" && '/' !in name
    requires Step(cfg, nav, BeginNode(name, begin)).Move?
    ensures depth > 0 && |Buffer(path, first)| + 2 + |name| < cfg.pathLen
    ensures var (p, tags) := (ChildPath(path, name), ChildPath(path, name) in cfg.inc || path in cfg.inc);
            && Step(cfg, nav, BeginNode(name, begin)) == Move(inside, tags) && (inside.want > 0 <==> tags)
            && inside.stack == nav.stack + [nav.want] && In(cfg, inside, p, true, depth - 1) && 2 <= |p|
  {
    PushPop(path, first, name);
    inside := Step(cfg, nav, BeginNode(name, begin)).nav;
  }

  /** Its END_NODE tag. */
  lemma NodeLeft(cfg: Config, nav: Nav, leaving: Nav, end: Bytes, name: string, path: string, first: bool, depth: nat)
    requires In(cfg, nav, path, first, depth) && name != "" && '/' !in name
    requires leaving.stack == nav.stack + [nav.want] && leaving.path == ChildPath(path, name) && !leaving.expectEnd
    ensures Step(cfg, leaving, EndNode(end)) == Move(nav.(path := Buffer(path, false)), leaving.want > 0)
  {
    PushPop(path, first, name);
    assert leaving.stack[..|leaving.stack| - 1] == nav.stack;
  }

  /** A node has been read once its content, its END_NODE tag and what follows have been. */
  lemma NodeRead(cfg: Config, items: Items, path: string, first: bool, depth: nat, body: Outcome, rest: Outcome,
                 after: Outcome)
    requires items.NodeItem? && depth > 0 && |Buffer(path, first)| + 2 + |items.name| < cfg.pathLen
    requires var (p, tags) := (ChildPath(path, items.name), ChildPath(path, items.name) in cfg.inc || path in cfg.inc);
             && Reads(cfg, items.body, p, true, depth - 1, body, Prepend([tags], rest))
             && Reads(cfg, items.rest, path, false, depth, rest, after)
    ensures var tags := ChildPath(path, items.name) in cfg.inc || path in cfg.inc;
            Reads(cfg, items, path, first, depth, Prepend([tags], body), after)
  {
    var (p, tags) := (ChildPath(path, items.name), ChildPath(path, items.name) in cfg.inc || path in cfg.inc);
    Nested([tags], Included(cfg, items.body, p), [tags], Included(cfg, items.rest, path), after);
  }

  /** The case of a child node whose BEGIN tag passes the limits. */
  lemma {:induction false} ScanNode(cfg: Config, nav: Nav, items: Items, path: string, first: bool, depth: nat,
                                    more: seq<Token>)
    returns (after: Nav)
    requires WellNamed(items) && In(cfg, nav, path, first, depth)
    requires items.NodeItem? && Step(cfg, nav, BeginNode(items.name, items.begin)).Move?
    ensures after == nav.(path := after.path) && after.path == Buffer(path, false)
    ensures var step := Step(cfg, nav, BeginNode(items.name, items.begin));
            var r := Prepend([step.included], Scan(cfg, step.nav, Inner(items, more)));
            Reads(cfg, items, path, first, depth, r, Scan(cfg, after, more))
    decreases items, 0
  {
    var p := ChildPath(path, items.name);
    var inside := NodeEntered(cfg, nav, items.name, items.begin, path, first, depth);
    var tail := Flatten(items.rest) + more;
    var leaving := ScanItems(cfg, inside, items.body, p, true, depth - 1, [EndNode(items.end)] + tail);
    NodeLeft(cfg, nav, leaving, items.end, items.name, path, first, depth);
    ScanStep(cfg, leaving, EndNode(items.end), tail);
    var outside := nav.(path := Buffer(path, false));
    after := ScanItems(cfg, outside, items.rest, path, false, depth, more);
    NodeRead(cfg, items, path, first, depth, Scan(cfg, inside, Inner(items, more)), Scan(cfg, outside, tail),
             Scan(cfg, after, more));
  }

  lemma Nested(a: seq<bool>, b: seq<bool>, c: seq<bool>, d: seq<bool>, r: Outcome)
    ensures Prepend(a, Prepend(b, Prepend(c, Prepend(d, r)))) == Prepend(a + b + c + d, r)
  {
    PrependTwice(c, d, r);
    PrependTwice(b, c + d, r);
    PrependTwice(a, b + (c + d), r);
    assert a + (b + (c + d)) == a + b + c + d;
  }

  lemma {:induction false} ScanNops(cfg: Config, nops: seq<Bytes>, more: seq<Token>)
    ensures Scan(cfg, ROOT, Nops(nops) + more) == Prepend(NotIncluded(|nops|), Scan(cfg, ROOT, more))
    decreases |nops|
  {
    var r := Scan(cfg, ROOT, more);
    if nops == [] {
      assert Nops(nops) + more == more;
      assert r.Flags? ==> [] + r.included == r.included;
    } else {
      assert Nops(nops) + more == [Nop(nops[0])] + (Nops(nops[1..]) + more);
      ScanStep(cfg, ROOT, Nop(nops[0]), Nops(nops[1..]) + more);
      ScanNops(cfg, nops[1..], more);
      PrependTwice([false], NotIncluded(|nops| - 1), r);
    }
  }

  /** In the root node, and behind it. */
  function InRoot(cfg: Config): Nav { Nav(if "/" in cfg.inc then 2 else 0, [0], "/", false) }

  const CLOSED: Nav := Nav(0, [], "", true)

  lemma RootEntered(cfg: Config, begin: Bytes)
    requires Step(cfg, ROOT, BeginNode("", begin)).Move?
    ensures Step(cfg, ROOT, BeginNode("", begin)) == Move(InRoot(cfg), "/" in cfg.inc)
  {
    assert Push("", "") == "/";
    assert [] + [0] == [0];
  }

  lemma RootLeft(cfg: Config, nav: Nav, end: Bytes)
    requires nav == InRoot(cfg).(path := nav.path) && (nav.path == "/" || nav.path == "")
    ensures Step(cfg, nav, EndNode(end)) == Move(CLOSED, "/" in cfg.inc)
  {
    assert [0][..0] == [];
    assert "/"[..0] == "";
  }

  lemma ScanRootBody(cfg: Config, doc: Doc, more: seq<Token>)
    requires WellNamed(doc.body)
    ensures var r := Scan(cfg, InRoot(cfg), Flatten(doc.body) + ([EndNode(doc.close)] + more));
            Reads(cfg, doc.body, "/", true, MAX_DEPTH - 1, r, Prepend(["/" in cfg.inc], Scan(cfg, CLOSED, more)))
  {
    var leaving := ScanItems(cfg, InRoot(cfg), doc.body, "/", true, MAX_DEPTH - 1, [EndNode(doc.close)] + more);
    RootLeft(cfg, leaving, doc.close);
    ScanStep(cfg, leaving, EndNode(doc.close), more);
  }

  lemma ScanRoot(cfg: Config, doc: Doc, more: seq<Token>)
    requires WellNamed(doc.body)
    ensures var (tags, code) := ("/" in cfg.inc, DocRefusal(cfg, doc));
            Scan(cfg, ROOT, RootTokens(doc) + more) ==
              if code != 0 then Error(code)
              else Prepend([tags] + Included(cfg, doc.body, "/") + [tags], Scan(cfg, CLOSED, more))
  {
    var inner := Flatten(doc.body) + ([EndNode(doc.close)] + more);
    assert RootTokens(doc) + more == [BeginNode("", doc.begin)] + inner;
    ScanStep(cfg, ROOT, BeginNode("", doc.begin), inner);
    if Step(cfg, ROOT, BeginNode("", doc.begin)).Move? {
      RootEntered(cfg, doc.begin);
      ScanRootBody(cfg, doc, more);
      var (tags, r) := (["/" in cfg.inc], Scan(cfg, CLOSED, more));
      PrependTwice(Included(cfg, doc.body, "/"), tags, r);
      PrependTwice(tags, Included(cfg, doc.body, "/") + tags, r);
      assert tags + (Included(cfg, doc.body, "/") + tags) == tags + Included(cfg, doc.body, "/") + tags;
    }
  }

  /** Behind the root node nothing but the END tag is accepted. */
  lemma ScanBehind(cfg: Config, more: seq<Token>)
    ensures Scan(cfg, CLOSED, more) == if more != [] && more[0].End? then Flags([true]) else Error(ERR_BADLAYOUT)
  {
  }

  /**
   On NOPs, a root node and anything behind it, the scan reports the first error in the tree; then it insists
   on the END tag; and then it yields the recursive reading.
   */
  lemma ScanTree(cfg: Config, doc: Doc, more: seq<Token>)
    requires WellNamed(doc.body)
    ensures Scan(cfg, ROOT, Nops(doc.nops) + (RootTokens(doc) + more)) ==
              if DocRefusal(cfg, doc) != 0 then Error(DocRefusal(cfg, doc))
              else if more != [] && more[0].End? then Flags(DocIncluded(cfg, doc))
              else Error(ERR_BADLAYOUT)
  {
    ScanNops(cfg, doc.nops, RootTokens(doc) + more);
    ScanRoot(cfg, doc, more);
    ScanBehind(cfg, more);
    var (tags, nops) := (["/" in cfg.inc], NotIncluded(|doc.nops|));
    var node := tags + Included(cfg, doc.body, "/") + tags;
    PrependTwice(nops, node, Scan(cfg, CLOSED, more));
    assert nops + (node + [true]) == nops + node + [true];
  }

  /** On a whole document the scan yields the recursive reading, or the first error. */
  lemma ScanDoc(cfg: Config, doc: Doc)
    requires WellNamed(doc.body)
    ensures var code := DocRefusal(cfg, doc);
            Scan(cfg, ROOT, DocTokens(doc)) == if code == 0 then Flags(DocIncluded(cfg, doc)) else Error(code)
  {
    Assoc(Nops(doc.nops), RootTokens(doc), [End(doc.end)]);
    ScanTree(cfg, doc, [End(doc.end)]);
  }

  /** What the scan makes of a stream in which another tag comes where the root node should begin. */
  lemma ScanRootless(cfg: Config, nops: seq<Bytes>, more: seq<Token>)
    requires more != [] ==> !more[0].Nop? && (more[0].BeginNode? ==> more[0].name != "")
    requires more != [] && more[0].Prop? ==> more[0].prop.Missing?
    ensures Scan(cfg, ROOT, Nops(nops) + more) ==
              if more == [] then Error(ERR_BADLAYOUT)
              else match more[0]
                case End(_) => Flags(NotIncluded(|nops|) + [true])
                case EndNode(_) => Error(ERR_BADSTRUCTURE)
                case Prop(_, _) => Error(ERR_BADSTRUCTURE)
                case _ => Error(ERR_BADLAYOUT)
  {
    ScanNops(cfg, nops, more);
  }
}
