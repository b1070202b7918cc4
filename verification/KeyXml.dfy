/**
RSA and DSA key values as XML (src/keysdata.c, section 4.4.2 of XML Signature Syntax and Processing):
the component buffers written as base64 element contents and read back. A node is its list of
children, elements with character content or other nodes.
*/
module KeyXml {
  import opened Bytes
  import opened Buffers
  import opened Base64Spec
  import opened Base64Laws
  import Base64Context

  datatype Name =
    | Modulus | Exponent | PrivateExponent
    | DsaP | DsaQ | DsaG | DsaX | DsaY | DsaJ | Seed | PgenCounter
    | OtherName(name: string)

  datatype Namespace = DSig | XmlSec | OtherNamespace(href: string)

  datatype Node = Element(name: Name, ns: Namespace, content: seq<byte>) | Text(content: seq<byte>)

  class XmlNode {
    var children: seq<Node>
  }

  function Elements(children: seq<Node>): seq<Node> {
    if children == [] then []
    else if children[0].Element? then [children[0]] + Elements(children[1..])
    else Elements(children[1..])
  }

  lemma {:induction false} ElementsConcat(a: seq<Node>, b: seq<Node>)
    ensures Elements(a + b) == Elements(a) + Elements(b)
  {
    if a == [] {
      assert a + b == b;
    } else {
      assert (a + b)[1..] == a[1..] + b;
      ElementsConcat(a[1..], b);
    }
  }

  /** The characters an element's content stands for once it is a C string. */
  function Payload(e: Node): seq<code> {
    Stripped(CString(e.content))
  }

  predicate Is(e: Node, name: Name, ns: Namespace) {
    e.Element? && e.name == name && e.ns == ns
  }

  //////////////////////////// one component ////////////////////////////

  /** Decodes an element's content into a buffer; a buffer that was never allocated cannot take an
      empty text. */
  method ContentRead(buf: Buffer, e: Node) returns (ok: bool)
    requires buf.Valid()
    modifies buf, buf.data
    ensures buf.Valid() && (buf.data == old(buf.data) || fresh(buf.data)) && old(buf.maxSize) <= buf.maxSize
    ensures ok <==> WellFormed(Payload(e)) && (old(buf.maxSize) > 0 || CString(e.content) != [])
    ensures ok ==> buf.Contents() == Decoded(Payload(e))
  {
    var content := CString(e.content);
    Base64Context.DecodedIsShorter(content);
    hide WellFormed, Decoded, Stripped, CString;
    buf.SetMaxSize(|content|);
    if buf.maxSize == 0 {
      return false;
    }
    var str := new byte[|content|](i requires 0 <= i < |content| => content[i]);
    assert str[..|content|] == content;
    var n;
    ok, n := Base64Context.DecodeInto(str, |content|, buf.data, buf.maxSize);
    if ok {
      buf.SetSize(n);
    }
  }

  /** The content of a written component. */
  function Framed(text: seq<byte>, lineFeed: seq<byte>, addLineBreaks: bool): seq<byte> {
    if addLineBreaks then lineFeed + text + lineFeed else text
  }

  /** The children of a node after a component was added. */
  function WithComponent(children: seq<Node>, name: Name, ns: Namespace, content: seq<byte>,
                         lineFeed: seq<byte>): seq<Node>
  {
    (if children == [] then [Text(lineFeed)] else children) + [Element(name, ns, content), Text(lineFeed)]
  }

  lemma ElementsWithComponent(children: seq<Node>, name: Name, ns: Namespace, content: seq<byte>, lineFeed: seq<byte>)
    ensures Elements(WithComponent(children, name, ns, content, lineFeed))
            == Elements(children) + [Element(name, ns, content)]
  {
    var before := if children == [] then [Text(lineFeed)] else children;
    var e := Element(name, ns, content);
    ElementsConcat(before, [e, Text(lineFeed)]);
    assert [Text(lineFeed)][1..] == [];
    assert Elements([Text(lineFeed)]) == [];
    assert [e, Text(lineFeed)][1..] == [Text(lineFeed)];
    assert Elements([e, Text(lineFeed)]) == [e];
  }

  /** Adds an element and fills it with the base64 of a buffer, between line feeds if asked. */
  method AddComponent(node: XmlNode, name: Name, ns: Namespace, buf: Buffer, columns: int,
                      addLineBreaks: bool, lineFeed: seq<byte>) returns (ok: bool)
    requires buf.Valid()
    modifies node
    ensures ok <==> columns >= 0 && buf.maxSize > 0
    ensures ok ==> node.children == WithComponent(old(node.children), name, ns,
                     Framed(Wrap(columns, Base64(buf.Contents())), lineFeed, addLineBreaks), lineFeed)
  {
    hide Wrap, Base64, Framed, WithComponent;
    ghost var before := node.children;
    var first := if addLineBreaks then lineFeed else [];
    var at := AddChild(node, name, ns, first, lineFeed);
    var text;
    ok, text := ContentText(buf, columns);
    if ok {
      AddContent(node, at, text);
      ChangeContent(before, at, name, ns, first, first + text, lineFeed);
      FramedParts(text, lineFeed, addLineBreaks);
      if addLineBreaks {
        AddContent(node, at, lineFeed);
        ChangeContent(before, at, name, ns, first + text, first + text + lineFeed, lineFeed);
      }
    }
  }

  /** The text a buffer's contents are written as; a buffer that was never allocated has none. */
  method ContentText(buf: Buffer, columns: int) returns (ok: bool, text: seq<byte>)
    requires buf.Valid()
    ensures ok <==> columns >= 0 && buf.maxSize > 0
    ensures ok ==> text == Wrap(columns, Base64(buf.Contents()))
  {
    hide Wrap, Base64, CString;
    if buf.maxSize == 0 {
      return false, [];
    }
    var str := Base64Context.Encode(buf.data, buf.size, columns);
    if str == null {
      return false, [];
    }
    assert str[|CString(str[..])|] == 0;
    var n := Strlen(str);
    ok, text := true, str[..n];
  }

  /** Adds an element with some content and a line feed behind it. */
  method AddChild(node: XmlNode, name: Name, ns: Namespace, content: seq<byte>, lineFeed: seq<byte>) returns (at: nat)
    modifies node
    ensures node.children == WithComponent(old(node.children), name, ns, content, lineFeed)
    ensures old(node.children) == [] ==>
              node.children == [Text(lineFeed), Element(name, ns, content), Text(lineFeed)]
    ensures old(node.children) != [] ==>
              node.children == old(node.children) + [Element(name, ns, content), Text(lineFeed)]
    ensures at + 2 == |node.children| && node.children[at] == Element(name, ns, content)
  {
    if node.children == [] {
      node.children := [Text(lineFeed)];
    }
    at := |node.children|;
    node.children := node.children + [Element(name, ns, content), Text(lineFeed)];
  }

  method AddContent(node: XmlNode, at: nat, more: seq<byte>)
    requires at < |node.children|
    modifies node
    ensures var e := old(node.children[at]);
            node.children == old(node.children)[at := e.(content := e.content + more)]
  {
    var e := node.children[at];
    node.children := node.children[at := e.(content := e.content + more)];
  }

  lemma ChangeContent(children: seq<Node>, at: nat, name: Name, ns: Namespace, was: seq<byte>, now: seq<byte>,
                      lineFeed: seq<byte>)
    requires at + 2 == |WithComponent(children, name, ns, was, lineFeed)|
    ensures WithComponent(children, name, ns, was, lineFeed)[at := Element(name, ns, now)]
            == WithComponent(children, name, ns, now, lineFeed)
  {
  }

  lemma FramedParts(text: seq<byte>, lineFeed: seq<byte>, addLineBreaks: bool)
    ensures Framed(text, lineFeed, addLineBreaks) == if addLineBreaks then lineFeed + text + lineFeed else [] + text
  {
  }

  /** What was written for a buffer reads back as the buffer's contents. */
  lemma ComponentRoundTrip(s: seq<byte>, columns: nat, lineFeed: seq<byte>, addLineBreaks: bool)
    requires addLineBreaks ==> AllSpace(Codes(lineFeed))
    ensures var content := Framed(Wrap(columns, Base64(s)), lineFeed, addLineBreaks);
            && CString(content) == content
            && WellFormed(Stripped(content)) && Decoded(Stripped(content)) == s
  {
    hide Wrap, Base64, CString, WellFormed, Decoded, Stripped, Codes, Significant, AllSpace;
    var text := Wrap(columns, Base64(s));
    DecodeWrapped(columns, s);
    Base64Context.TextWithoutNul(columns, s);
    if addLineBreaks {
      SpacesHaveNoNul(lineFeed);
      StrippedSpaces(lineFeed);
      StrippedConcat(lineFeed, text);
      StrippedConcat(lineFeed + text, lineFeed);
      assert [] + Stripped(text) + [] == Stripped(text);
    }
    NoNulNoCut(Framed(text, lineFeed, addLineBreaks));
  }

  lemma SpacesHaveNoNul(t: seq<byte>)
    requires AllSpace(Codes(t))
    ensures 0 !in t
  {
    assert forall i | 0 <= i < |t| :: Code(t[i]) == Codes(t)[i];
  }

  lemma StrippedSpaces(t: seq<byte>)
    requires AllSpace(Codes(t))
    ensures Stripped(t) == []
  {
    SignificantOfSpaces(Codes(t));
  }

  lemma {:induction false} NoNulNoCut(s: seq<byte>)
    requires 0 !in s
    ensures CString(s) == s
  {
    if s != [] {
      NoNulNoCut(s[1..]);
    }
  }

  //////////////////////////// RSA ////////////////////////////

  class RsaValue {
    const modulus: Buffer
    const publicExponent: Buffer
    const privateExponent: Buffer

    ghost predicate Valid()
      reads this, modulus, publicExponent, privateExponent
    {
      && modulus.Valid() && publicExponent.Valid() && privateExponent.Valid()
      && modulus.maxSize > 0 && publicExponent.maxSize > 0 && privateExponent.maxSize > 0
      && modulus != publicExponent && modulus != privateExponent && publicExponent != privateExponent
      && modulus.data != publicExponent.data && modulus.data != privateExponent.data
      && publicExponent.data != privateExponent.data
    }

    constructor Initialize(mode: AllocMode, initialSize: nat)
      ensures Valid() && fresh(modulus) && fresh(publicExponent) && fresh(privateExponent)
      ensures fresh(modulus.data) && fresh(publicExponent.data) && fresh(privateExponent.data)
    {
      modulus := new Buffer.Initialize(512, mode, initialSize);
      publicExponent := new Buffer.Initialize(512, mode, initialSize);
      privateExponent := new Buffer.Initialize(512, mode, initialSize);
    }
  }

  /** The element children of a readable RSAKeyValue: two required components and an optional one. */
  predicate RsaReadable(es: seq<Node>) {
    && 2 <= |es| <= 3 && Is(es[0], Modulus, DSig) && Is(es[1], Exponent, DSig)
    && (|es| == 3 ==> Is(es[2], PrivateExponent, XmlSec))
    && (forall i | 0 <= i < |es| :: WellFormed(Payload(es[i])))
  }

  /** The position of the next element from `from` on, or the number of children. */
  method NextElement(children: seq<Node>, from: nat) returns (cur: nat)
    requires from <= |children|
    ensures from <= cur <= |children| && (cur < |children| ==> children[cur].Element?)
    ensures Elements(children[from..]) ==
            if cur < |children| then [children[cur]] + Elements(children[cur + 1..]) else []
  {
    cur := from;
    while cur < |children| && !children[cur].Element?
      invariant from <= cur <= |children| && Elements(children[from..]) == Elements(children[cur..])
    {
      assert children[cur..][1..] == children[cur + 1..];
      cur := cur + 1;
    }
    if cur < |children| {
      assert children[cur..][1..] == children[cur + 1..];
    }
  }

  predicate Next(es: seq<Node>, name: Name, ns: Namespace) {
    es != [] && Is(es[0], name, ns)
  }

  /** Reads the next element, which must have the given name. */
  method ReadRequired(kids: seq<Node>, from: nat, name: Name, ns: Namespace, buf: Buffer) returns (ok: bool, next: nat)
    requires from <= |kids| && buf.Valid() && buf.maxSize > 0
    modifies buf, buf.data
    ensures buf.Valid() && buf.maxSize > 0 && (buf.data == old(buf.data) || fresh(buf.data)) && next <= |kids|
    ensures var es := Elements(kids[from..]);
            && (ok <==> Next(es, name, ns) && WellFormed(Payload(es[0])))
            && (ok ==> buf.Contents() == Decoded(Payload(es[0])) && Elements(kids[next..]) == es[1..])
  {
    hide WellFormed, Decoded, Payload, CString;
    var cur := NextElement(kids, from);
    if cur == |kids| || !Is(kids[cur], name, ns) {
      return false, cur;
    }
    ok := ContentRead(buf, kids[cur]);
    next := cur + 1;
  }

  /** Reads the next element if it has the given name, and empties the buffer otherwise. */
  method ReadOptional(kids: seq<Node>, from: nat, name: Name, ns: Namespace, buf: Buffer) returns (ok: bool, next: nat)
    requires from <= |kids| && buf.Valid() && buf.maxSize > 0
    modifies buf, buf.data
    ensures buf.Valid() && buf.maxSize > 0 && (buf.data == old(buf.data) || fresh(buf.data)) && next <= |kids|
    ensures var es := Elements(kids[from..]);
            if Next(es, name, ns) then
              && (ok <==> WellFormed(Payload(es[0])))
              && (ok ==> buf.Contents() == Decoded(Payload(es[0])) && Elements(kids[next..]) == es[1..])
            else
              ok && buf.Contents() == [] && Elements(kids[next..]) == es
  {
    hide WellFormed, Decoded, Payload, CString;
    var cur := NextElement(kids, from);
    if cur < |kids| && Is(kids[cur], name, ns) {
      ok := ContentRead(buf, kids[cur]);
      next := cur + 1;
    } else {
      buf.SetSize(0);
      ok, next := true, from;
    }
  }

  method RsaXmlRead(data: RsaValue, node: XmlNode) returns (ok: bool)
    requires data.Valid()
    modifies data.modulus, data.publicExponent, data.privateExponent,
             data.modulus.data, data.publicExponent.data, data.privateExponent.data
    ensures ok <==> RsaReadable(Elements(node.children))
    ensures ok ==> var es := Elements(node.children);
                   && data.Valid()
                   && data.modulus.Contents() == Decoded(Payload(es[0]))
                   && data.publicExponent.Contents() == Decoded(Payload(es[1]))
                   && data.privateExponent.Contents() == if |es| == 3 then Decoded(Payload(es[2])) else []
  {
    hide WellFormed, Decoded, Payload, CString, Elements;
    var kids := node.children;
    assert kids[0..] == kids;
    var next;
    ok, next := ReadRequired(kids, 0, Modulus, DSig, data.modulus);
    if ok {
      ok, next := ReadRequired(kids, next, Exponent, DSig, data.publicExponent);
    }
    if ok {
      ok, next := ReadOptional(kids, next, PrivateExponent, XmlSec, data.privateExponent);
    }
    if ok {
      var cur := NextElement(kids, next);
      ok := cur == |kids|;
    }
  }

  /** The element children RsaXmlWrite adds. */
  function RsaElements(modulus: seq<byte>, publicExponent: seq<byte>, privateExponent: seq<byte>,
                       writePrivateKey: bool, columns: nat, addLineBreaks: bool, lineFeed: seq<byte>): seq<Node> {
    [Element(Modulus, DSig, Framed(Wrap(columns, Base64(modulus)), lineFeed, addLineBreaks)),
     Element(Exponent, DSig, Framed(Wrap(columns, Base64(publicExponent)), lineFeed, addLineBreaks))]
    + if writePrivateKey && |privateExponent| > 0 then
        [Element(PrivateExponent, XmlSec, Framed(Wrap(columns, Base64(privateExponent)), lineFeed, addLineBreaks))]
      else []
  }

  method RsaXmlWrite(data: RsaValue, node: XmlNode, writePrivateKey: bool, base64LineSize: int,
                     addLineBreaks: bool, lineFeed: seq<byte>) returns (ok: bool)
    requires data.Valid()
    modifies node
    ensures ok <==> base64LineSize >= 0
    ensures ok ==> Elements(node.children) == Elements(old(node.children)) +
                   RsaElements(data.modulus.Contents(), data.publicExponent.Contents(), data.privateExponent.Contents(),
                               writePrivateKey, base64LineSize, addLineBreaks, lineFeed)
  {
    hide Wrap, Base64, Framed, WithComponent, Elements;
    ok := AddElement(node, Modulus, DSig, data.modulus, base64LineSize, addLineBreaks, lineFeed);
    if ok {
      ok := AddElement(node, Exponent, DSig, data.publicExponent, base64LineSize, addLineBreaks, lineFeed);
    }
    if ok && writePrivateKey && data.privateExponent.size > 0 {
      ok := AddElement(node, PrivateExponent, XmlSec, data.privateExponent, base64LineSize, addLineBreaks, lineFeed);
    }
  }

  /** AddComponent, as far as the element children are concerned. */
  method AddElement(node: XmlNode, name: Name, ns: Namespace, buf: Buffer, columns: int,
                    addLineBreaks: bool, lineFeed: seq<byte>) returns (ok: bool)
    requires buf.Valid() && buf.maxSize > 0
    modifies node
    ensures ok <==> columns >= 0
    ensures ok ==> Elements(node.children) == Elements(old(node.children)) +
                   [Element(name, ns, Framed(Wrap(columns, Base64(buf.Contents())), lineFeed, addLineBreaks))]
  {
    hide Wrap, Base64, Framed, WithComponent, Elements;
    ghost var before := node.children;
    ok := AddComponent(node, name, ns, buf, columns, addLineBreaks, lineFeed);
    if ok {
      ghost var content := Framed(Wrap(columns, Base64(buf.Contents())), lineFeed, addLineBreaks);
      ElementsWithComponent(before, name, ns, content, lineFeed);
    }
  }

  /** Written components read back: every one, and the private one exactly when it was written. */
  lemma RsaRoundTrip(modulus: seq<byte>, publicExponent: seq<byte>, privateExponent: seq<byte>,
                     writePrivateKey: bool, columns: nat, addLineBreaks: bool, lineFeed: seq<byte>)
    requires addLineBreaks ==> AllSpace(Codes(lineFeed))
    ensures var es := RsaElements(modulus, publicExponent, privateExponent, writePrivateKey, columns, addLineBreaks,
                                  lineFeed);
            && RsaReadable(es)
            && Decoded(Payload(es[0])) == modulus && Decoded(Payload(es[1])) == publicExponent
            && (if |es| == 3 then Decoded(Payload(es[2])) else []) == if writePrivateKey then privateExponent else []
  {
    hide Wrap, Base64, Framed, WellFormed, Decoded, Stripped, CString, AllSpace;
    ComponentRoundTrip(modulus, columns, lineFeed, addLineBreaks);
    ComponentRoundTrip(publicExponent, columns, lineFeed, addLineBreaks);
    ComponentRoundTrip(privateExponent, columns, lineFeed, addLineBreaks);
  }

  method RsaToNode(data: RsaValue, writePrivateKey: bool, base64LineSize: nat, addLineBreaks: bool,
                   lineFeed: seq<byte>) returns (node: XmlNode)
    requires data.Valid()
    ensures fresh(node)
    ensures Elements(node.children) ==
            RsaElements(data.modulus.Contents(), data.publicExponent.Contents(), data.privateExponent.Contents(),
                        writePrivateKey, base64LineSize, addLineBreaks, lineFeed)
  {
    hide RsaElements, Elements;
    node := new XmlNode;
    node.children := [];
    NoElements();
    var ok := RsaXmlWrite(data, node, writePrivateKey, base64LineSize, addLineBreaks, lineFeed);
    assert forall es: seq<Node> :: [] + es == es;
  }

  /** An RSA value written to a fresh node and read back. */
  method RsaWriteAndRead(data: RsaValue, writePrivateKey: bool, base64LineSize: nat, addLineBreaks: bool,
                         lineFeed: seq<byte>, mode: AllocMode, initialSize: nat) returns (ok: bool, copy: RsaValue)
    requires data.Valid() && (addLineBreaks ==> AllSpace(Codes(lineFeed)))
    ensures ok && copy.Valid()
    ensures copy.modulus.Contents() == data.modulus.Contents()
    ensures copy.publicExponent.Contents() == data.publicExponent.Contents()
    ensures copy.privateExponent.Contents() == if writePrivateKey then data.privateExponent.Contents() else []
  {
    hide AllSpace, Codes, RsaElements, Decoded, Payload, RsaReadable, Elements;
    RsaRoundTrip(data.modulus.Contents(), data.publicExponent.Contents(), data.privateExponent.Contents(),
                 writePrivateKey, base64LineSize, addLineBreaks, lineFeed);
    var node := RsaToNode(data, writePrivateKey, base64LineSize, addLineBreaks, lineFeed);
    copy := new RsaValue.Initialize(mode, initialSize);
    ok := RsaXmlRead(copy, node);
  }

  lemma NoElements()
    ensures Elements([]) == []
  {
  }

  //////////////////////////// DSA ////////////////////////////

  class DsaValue {
    const p: Buffer
    const q: Buffer
    const g: Buffer
    const x: Buffer
    const y: Buffer

    ghost predicate Valid()
      reads this, p, q, g, x, y
    {
      && p.Valid() && q.Valid() && g.Valid() && x.Valid() && y.Valid()
      && p.maxSize > 0 && q.maxSize > 0 && g.maxSize > 0 && x.maxSize > 0 && y.maxSize > 0
      && p != q && p != g && p != x && p != y && q != g && q != x && q != y && g != x && g != y && x != y
      && p.data != q.data && p.data != g.data && p.data != x.data && p.data != y.data
      && q.data != g.data && q.data != x.data && q.data != y.data
      && g.data != x.data && g.data != y.data && x.data != y.data
    }

    constructor Initialize(mode: AllocMode, initialSize: nat)
      ensures Valid() && fresh(p) && fresh(q) && fresh(g) && fresh(x) && fresh(y)
      ensures fresh(p.data) && fresh(q.data) && fresh(g.data) && fresh(x.data) && fresh(y.data)
    {
      p := new Buffer.Initialize(512, mode, initialSize);
      q := new Buffer.Initialize(512, mode, initialSize);
      g := new Buffer.Initialize(512, mode, initialSize);
      x := new Buffer.Initialize(512, mode, initialSize);
      y := new Buffer.Initialize(512, mode, initialSize);
    }
  }

  /** The elements left when an optional element of the given name is passed over. */
  function Past(es: seq<Node>, name: Name): seq<Node> {
    if Next(es, name, DSig) then es[1..] else es
  }

  /** P, Q and G come first. */
  predicate ParametersReadable(es: seq<Node>) {
    && |es| >= 3 && Is(es[0], DsaP, DSig) && Is(es[1], DsaQ, DSig) && Is(es[2], DsaG, DSig)
    && WellFormed(Payload(es[0])) && WellFormed(Payload(es[1])) && WellFormed(Payload(es[2]))
  }

  predicate HasX(es: seq<Node>) {
    Next(es, DsaX, XmlSec)
  }

  function PastX(es: seq<Node>): seq<Node> {
    if HasX(es) then es[1..] else es
  }

  /** Then an optional X, then Y, and at most the three components that are not supported. */
  predicate KeysReadable(es: seq<Node>) {
    && (HasX(es) ==> WellFormed(Payload(es[0])))
    && var rest := PastX(es);
       && Next(rest, DsaY, DSig) && WellFormed(Payload(rest[0]))
       && Past(Past(Past(rest[1..], DsaJ), Seed), PgenCounter) == []
  }

  /** The element children of a readable DSAKeyValue. */
  predicate DsaReadable(es: seq<Node>) {
    ParametersReadable(es) && KeysReadable(es[3..])
  }

  //////////////////////////// what the readers accept, at sight ////////////////////////////

  /** The nodes are elements of the given names and namespaces, in this order. */
  predicate Named(es: seq<Node>, kinds: seq<(Name, Namespace)>) {
    && |es| == |kinds|
    && forall i | 0 <= i < |es| :: es[i].Element? && es[i].name == kinds[i].0 && es[i].ns == kinds[i].1
  }

  lemma RsaReadableAtSight(es: seq<Node>)
    ensures RsaReadable(es) <==>
            && (|| Named(es, [(Modulus, DSig), (Exponent, DSig)])
                || Named(es, [(Modulus, DSig), (Exponent, DSig), (PrivateExponent, XmlSec)]))
            && (forall i | 0 <= i < |es| :: WellFormed(Payload(es[i])))
  {
    hide WellFormed, Payload;
  }

  /** The eight ways to leave out some of J, Seed and PgenCounter. */
  predicate Unused(es: seq<Node>) {
    || Named(es, [])
    || Named(es, [(DsaJ, DSig)])
    || Named(es, [(Seed, DSig)])
    || Named(es, [(PgenCounter, DSig)])
    || Named(es, [(DsaJ, DSig), (Seed, DSig)])
    || Named(es, [(DsaJ, DSig), (PgenCounter, DSig)])
    || Named(es, [(Seed, DSig), (PgenCounter, DSig)])
    || Named(es, [(DsaJ, DSig), (Seed, DSig), (PgenCounter, DSig)])
  }

  lemma PastUnused(es: seq<Node>)
    ensures Past(Past(Past(es, DsaJ), Seed), PgenCounter) == [] <==> Unused(es)
  {
    if |es| <= 3 {
      var a := Past(es, DsaJ);
      var b := Past(a, Seed);
      assert a == es || a == es[1..];
      assert b == a || b == a[1..];
      assert |es| > 0 ==> es == [es[0]] + es[1..];
    }
  }

  /** P, Q, G, at most one X, Y, with well-formed contents, then some of J, Seed and PgenCounter. */
  lemma DsaReadableAtSight(es: seq<Node>)
    ensures DsaReadable(es) <==>
            && |es| >= 4 && Named(es[..3], [(DsaP, DSig), (DsaQ, DSig), (DsaG, DSig)])
            && (var n := if Named(es[3..4], [(DsaX, XmlSec)]) then 4 else 3;
                && |es| > n && Named(es[n..n + 1], [(DsaY, DSig)])
                && (forall i | 0 <= i <= n :: WellFormed(Payload(es[i])))
                && Unused(es[n + 1..]))
  {
    hide WellFormed, Payload, Past, Unused;
    if |es| >= 4 {
      assert es[..3][0] == es[0] && es[..3][1] == es[1] && es[..3][2] == es[2] && es[3..4][0] == es[3];
      assert es[3..][0] == es[3] && es[3..][1..] == es[4..];
      PastUnused(es[4..]);
      if |es| >= 5 {
        assert es[4..5][0] == es[4] && es[4..][0] == es[4] && es[4..][1..] == es[5..];
        PastUnused(es[5..]);
      }
    }
  }

  /** A readable value that ends in its Y stays readable with exactly these elements behind it. */
  lemma DsaTail(es: seq<Node>, tail: seq<Node>)
    requires DsaReadable(es) && es != [] && Named(es[|es| - 1..], [(DsaY, DSig)])
    ensures DsaReadable(es + tail) <==> Unused(tail)
  {
    hide WellFormed, Payload, DsaReadable;
    DsaReadableAtSight(es);
    DsaReadableAtSight(es + tail);
    var n := if Named(es[3..4], [(DsaX, XmlSec)]) then 4 else 3;
    assert es[|es| - 1..][0] == es[|es| - 1];
    UnusedEndsOtherwise(es[n + 1..]);
    hide Unused, Named;
    assert (es + tail)[..3] == es[..3] && (es + tail)[3..4] == es[3..4];
    assert (es + tail)[n..n + 1] == es[n..n + 1] && (es + tail)[n + 1..] == tail;
    assert es[n + 1..] == [];
  }

  lemma UnusedEndsOtherwise(es: seq<Node>)
    requires Unused(es)
    ensures es == [] || (es[|es| - 1].Element? && es[|es| - 1].name != DsaY)
  {
  }

  method SkipOptional(kids: seq<Node>, from: nat, name: Name) returns (next: nat)
    requires from <= |kids|
    ensures next <= |kids| && Elements(kids[next..]) == Past(Elements(kids[from..]), name)
  {
    var cur := NextElement(kids, from);
    next := if cur < |kids| && Is(kids[cur], name, DSig) then cur + 1 else from;
  }

  method ReadParameters(data: DsaValue, kids: seq<Node>) returns (ok: bool, next: nat)
    requires data.Valid()
    modifies data.p, data.q, data.g, data.p.data, data.q.data, data.g.data
    ensures next <= |kids| && (ok <==> ParametersReadable(Elements(kids)))
    ensures data.p.data == old(data.p.data) || fresh(data.p.data)
    ensures data.q.data == old(data.q.data) || fresh(data.q.data)
    ensures data.g.data == old(data.g.data) || fresh(data.g.data)
    ensures ok ==> var es := Elements(kids);
                   && data.Valid() && Elements(kids[next..]) == es[3..]
                   && data.p.Contents() == Decoded(Payload(es[0]))
                   && data.q.Contents() == Decoded(Payload(es[1]))
                   && data.g.Contents() == Decoded(Payload(es[2]))
  {
    hide WellFormed, Decoded, Payload, CString, Elements;
    assert kids[0..] == kids;
    ok, next := ReadRequired(kids, 0, DsaP, DSig, data.p);
    if ok {
      ok, next := ReadRequired(kids, next, DsaQ, DSig, data.q);
    }
    if ok {
      ok, next := ReadRequired(kids, next, DsaG, DSig, data.g);
    }
  }

  method ReadKeys(data: DsaValue, kids: seq<Node>, from: nat) returns (ok: bool)
    requires data.Valid() && from <= |kids|
    modifies data.x, data.y, data.x.data, data.y.data
    ensures ok <==> KeysReadable(Elements(kids[from..]))
    ensures ok ==> var es := Elements(kids[from..]);
                   && data.Valid()
                   && data.x.Contents() == (if HasX(es) then Decoded(Payload(es[0])) else [])
                   && data.y.Contents() == Decoded(Payload(PastX(es)[0]))
  {
    hide WellFormed, Decoded, Payload, CString, Elements, Past;
    var next;
    ok, next := ReadOptional(kids, from, DsaX, XmlSec, data.x);
    if ok {
      ok, next := ReadRequired(kids, next, DsaY, DSig, data.y);
    }
    if ok {
      next := SkipOptional(kids, next, DsaJ);
      next := SkipOptional(kids, next, Seed);
      next := SkipOptional(kids, next, PgenCounter);
      var cur := NextElement(kids, next);
      ok := cur == |kids|;
    }
  }

  method DsaXmlRead(data: DsaValue, node: XmlNode) returns (ok: bool)
    requires data.Valid()
    modifies data.p, data.q, data.g, data.x, data.y, data.p.data, data.q.data, data.g.data, data.x.data, data.y.data
    ensures ok <==> DsaReadable(Elements(node.children))
    ensures ok ==> var es := Elements(node.children);
                   && data.Valid()
                   && data.p.Contents() == Decoded(Payload(es[0]))
                   && data.q.Contents() == Decoded(Payload(es[1]))
                   && data.g.Contents() == Decoded(Payload(es[2]))
                   && data.x.Contents() == (if HasX(es[3..]) then Decoded(Payload(es[3])) else [])
                   && data.y.Contents() == Decoded(Payload(PastX(es[3..])[0]))
  {
    hide WellFormed, Decoded, Payload, CString, Elements, Past, PastX, KeysReadable;
    var kids := node.children;
    var next;
    ok, next := ReadParameters(data, kids);
    if ok {
      ok := ReadKeys(data, kids, next);
    }
  }

  /** The element children DsaXmlWrite adds. */
  function DsaElements(p: seq<byte>, q: seq<byte>, g: seq<byte>, x: seq<byte>, y: seq<byte>,
                       writePrivateKey: bool, columns: nat, addLineBreaks: bool, lineFeed: seq<byte>): seq<Node> {
    [Element(DsaP, DSig, Framed(Wrap(columns, Base64(p)), lineFeed, addLineBreaks)),
     Element(DsaQ, DSig, Framed(Wrap(columns, Base64(q)), lineFeed, addLineBreaks)),
     Element(DsaG, DSig, Framed(Wrap(columns, Base64(g)), lineFeed, addLineBreaks))]
    + (if writePrivateKey && |x| > 0 then
         [Element(DsaX, XmlSec, Framed(Wrap(columns, Base64(x)), lineFeed, addLineBreaks))] else [])
    + [Element(DsaY, DSig, Framed(Wrap(columns, Base64(y)), lineFeed, addLineBreaks))]
  }

  method DsaXmlWrite(data: DsaValue, node: XmlNode, writePrivateKey: bool, base64LineSize: int,
                     addLineBreaks: bool, lineFeed: seq<byte>) returns (ok: bool)
    requires data.Valid()
    modifies node
    ensures ok <==> base64LineSize >= 0
    ensures ok ==> Elements(node.children) == Elements(old(node.children)) +
                   DsaElements(data.p.Contents(), data.q.Contents(), data.g.Contents(), data.x.Contents(),
                               data.y.Contents(), writePrivateKey, base64LineSize, addLineBreaks, lineFeed)
  {
    hide Wrap, Base64, Framed, WithComponent, Elements;
    ok := AddElement(node, DsaP, DSig, data.p, base64LineSize, addLineBreaks, lineFeed);
    if ok {
      ok := AddElement(node, DsaQ, DSig, data.q, base64LineSize, addLineBreaks, lineFeed);
    }
    if ok {
      ok := AddElement(node, DsaG, DSig, data.g, base64LineSize, addLineBreaks, lineFeed);
    }
    if ok && writePrivateKey && data.x.size > 0 {
      ok := AddElement(node, DsaX, XmlSec, data.x, base64LineSize, addLineBreaks, lineFeed);
    }
    if ok {
      ok := AddElement(node, DsaY, DSig, data.y, base64LineSize, addLineBreaks, lineFeed);
    }
  }

  lemma DsaRoundTrip(p: seq<byte>, q: seq<byte>, g: seq<byte>, x: seq<byte>, y: seq<byte>,
                     writePrivateKey: bool, columns: nat, addLineBreaks: bool, lineFeed: seq<byte>)
    requires addLineBreaks ==> AllSpace(Codes(lineFeed))
    ensures var es := DsaElements(p, q, g, x, y, writePrivateKey, columns, addLineBreaks, lineFeed);
            && DsaReadable(es)
            && Decoded(Payload(es[0])) == p && Decoded(Payload(es[1])) == q && Decoded(Payload(es[2])) == g
            && (if HasX(es[3..]) then Decoded(Payload(es[3])) else []) == (if writePrivateKey then x else [])
            && Decoded(Payload(PastX(es[3..])[0])) == y
  {
    hide Wrap, Base64, Framed, WellFormed, Decoded, Stripped, CString, AllSpace;
    ComponentRoundTrip(p, columns, lineFeed, addLineBreaks);
    ComponentRoundTrip(q, columns, lineFeed, addLineBreaks);
    ComponentRoundTrip(g, columns, lineFeed, addLineBreaks);
    ComponentRoundTrip(x, columns, lineFeed, addLineBreaks);
    ComponentRoundTrip(y, columns, lineFeed, addLineBreaks);
    var es := DsaElements(p, q, g, x, y, writePrivateKey, columns, addLineBreaks, lineFeed);
    assert |es| == if writePrivateKey && |x| > 0 then 5 else 4;
    assert es[3..][0] == es[3];
  }

  method DsaToNode(data: DsaValue, writePrivateKey: bool, base64LineSize: nat, addLineBreaks: bool,
                   lineFeed: seq<byte>) returns (node: XmlNode)
    requires data.Valid()
    ensures fresh(node)
    ensures Elements(node.children) ==
            DsaElements(data.p.Contents(), data.q.Contents(), data.g.Contents(), data.x.Contents(),
                        data.y.Contents(), writePrivateKey, base64LineSize, addLineBreaks, lineFeed)
  {
    hide DsaElements, Elements;
    node := new XmlNode;
    node.children := [];
    NoElements();
    var ok := DsaXmlWrite(data, node, writePrivateKey, base64LineSize, addLineBreaks, lineFeed);
    assert forall es: seq<Node> :: [] + es == es;
  }

  method DsaFromNode(node: XmlNode, mode: AllocMode, initialSize: nat) returns (ok: bool, data: DsaValue)
    ensures ok <==> DsaReadable(Elements(node.children))
    ensures ok ==> var es := Elements(node.children);
                   && data.Valid()
                   && data.p.Contents() == Decoded(Payload(es[0]))
                   && data.q.Contents() == Decoded(Payload(es[1]))
                   && data.g.Contents() == Decoded(Payload(es[2]))
                   && data.x.Contents() == (if HasX(es[3..]) then Decoded(Payload(es[3])) else [])
                   && data.y.Contents() == Decoded(Payload(PastX(es[3..])[0]))
  {
    hide Decoded, Payload, DsaReadable, Elements, HasX, PastX;
    data := new DsaValue.Initialize(mode, initialSize);
    ok := DsaXmlRead(data, node);
  }

  /** A DSA value written to a fresh node and read back. */
  method DsaWriteAndRead(data: DsaValue, writePrivateKey: bool, base64LineSize: nat, addLineBreaks: bool,
                         lineFeed: seq<byte>, mode: AllocMode, initialSize: nat) returns (ok: bool, copy: DsaValue)
    requires data.Valid() && (addLineBreaks ==> AllSpace(Codes(lineFeed)))
    ensures ok && copy.Valid()
    ensures copy.p.Contents() == data.p.Contents() && copy.q.Contents() == data.q.Contents()
    ensures copy.g.Contents() == data.g.Contents() && copy.y.Contents() == data.y.Contents()
    ensures copy.x.Contents() == if writePrivateKey then data.x.Contents() else []
  {
    hide AllSpace, Codes, DsaElements, Decoded, Payload, DsaReadable, Elements, HasX, PastX;
    DsaRoundTrip(data.p.Contents(), data.q.Contents(), data.g.Contents(), data.x.Contents(), data.y.Contents(),
                 writePrivateKey, base64LineSize, addLineBreaks, lineFeed);
    var node := DsaToNode(data, writePrivateKey, base64LineSize, addLineBreaks, lineFeed);
    ok, copy := DsaFromNode(node, mode, initialSize);
  }
}
