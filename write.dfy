/** The string serialiser of src/write.ts. A pass collects the pushed
    children into numbered slots (`WriteContext`), an element pass also
    collects attributes (`ElementWriteContext`), and the slots are joined in
    the order of `sort()` on their numbers. The functional specification is
    `Fold`/`ElementHTML`; the classes are proved to compute it. */
module Write {
  import opened Common
  import opened Descriptors
  import opened Registry
  import opened Escape
  import opened Slots

  /** `selfclose`: the void elements, looked up case-sensitively. */
  const SelfClose: set<string> := {
    "area", "base", "br", "col", "command", "embed", "hr", "img", "input",
    "keygen", "link", "menuitem", "meta", "param", "source", "track", "wbr"
  }

  function WriteText(d: TextDescriptor): string {
    EscapeHTMLChars(d.content)
  }

  function WriteComment(d: CommentDescriptor): string {
    "<!-- " + EscapeHTMLChars(d.content) + " -->"
  }

  /** Text and comment content is escaped: after escaping there is no raw
      `<`, `>` or `"`, and the content is kept verbatim exactly when it has
      nothing to escape. */
  lemma WrittenTextIsEscaped(t: TextDescriptor, c: CommentDescriptor)
    ensures Escaped(WriteText(t))
    ensures WriteText(t) == t.content <==> forall i :: 0 <= i < |t.content| ==> !Special(t.content[i])
    ensures var m := EscapeHTMLChars(c.content);
      WriteComment(c) == "<!-- " + m + " -->" && Escaped(m)
  {
    EscapeSafe(t.content);
    EscapeFixedIff(t.content);
    EscapeSafe(c.content);
  }

  // ---------------------------------------------------------------------
  // Slots: `keys` (a Map from key to order) and `children` (order to markup)

  /** The `keys` map, as its keys in insertion order (a key's order is its
      position), and the `children` record. */
  datatype SlotTable = SlotTable(keys: seq<KeyValue>, children: map<nat, string>)

  const EmptyTable := SlotTable([], map[])

  /** Every key has exactly one order, and the orders are `0 .. n - 1`, each
      holding the markup written for it. */
  ghost predicate SlotsValid(t: SlotTable) {
    && NoDup(t.keys)
    && (forall o :: o in t.children ==> o < |t.keys|)
    && (forall o: nat :: o < |t.keys| ==> o in t.children)
  }

  /** `getDescriptorKey`: a missing key becomes the current size of `keys`. */
  function DescriptorKey(keys: seq<KeyValue>, key: Key): (r: KeyValue)
    ensures key.Some? ==> r == key.value
    ensures key.None? ==> r == NumKey(|keys|)
  {
    if key.None? then NumKey(|keys|) else key.value
  }

  /** `getKeyOrder`: a key seen before keeps its order; an unseen key gets the
      current size. */
  function KeyOrder(keys: seq<KeyValue>, k: KeyValue): (o: nat)
    ensures o <= |keys|
    ensures o < |keys| <==> k in keys
    ensures k in keys ==> keys[o] == k
    ensures NoDup(keys) && k in keys ==> forall i :: 0 <= i < |keys| && keys[i] == k ==> i == o
  {
    if k in keys then IndexOf(keys, k) else |keys|
  }

  /** What a text, comment or element push does to the slots. */
  function Claim(t: SlotTable, key: Key, html: string): (r: SlotTable)
    ensures SlotsValid(t) ==> SlotsValid(r)
  {
    var k := DescriptorKey(t.keys, key);
    SlotTable(SetAdd(t.keys, k), t.children[KeyOrder(t.keys, k) := html])
  }

  /** A new key adds one slot, numbered by the count of keys before it. */
  lemma ClaimNewKey(t: SlotTable, key: Key, html: string)
    requires DescriptorKey(t.keys, key) !in t.keys
    ensures Claim(t, key, html).keys == t.keys + [DescriptorKey(t.keys, key)]
    ensures Claim(t, key, html).children == t.children[|t.keys| := html]
  {
  }

  /** A key seen before adds no slot and overwrites its own. */
  lemma ClaimSeenKey(t: SlotTable, key: Key, html: string)
    requires DescriptorKey(t.keys, key) in t.keys
    ensures Claim(t, key, html).keys == t.keys
    ensures Claim(t, key, html).children == t.children[IndexOf(t.keys, DescriptorKey(t.keys, key)) := html]
  {
  }

  /** Last write wins: a second push with the same key replaces the first
      one's markup and leaves the keys as the first push left them. */
  lemma LastWriteWins(t: SlotTable, k: KeyValue, first: string, second: string)
    ensures Claim(Claim(t, Some(k), first), Some(k), second) == Claim(t, Some(k), second)
  {
    var t1 := Claim(t, Some(k), first);
    if k in t.keys {
      ClaimSeenKey(t, Some(k), first);
      ClaimSeenKey(t1, Some(k), second);
      ClaimSeenKey(t, Some(k), second);
    } else {
      ClaimNewKey(t, Some(k), first);
      ClaimNewKey(t, Some(k), second);
      IndexOfAppended(t.keys, k);
      ClaimSeenKey(t1, Some(k), second);
    }
  }

  lemma IndexOfAppended(keys: seq<KeyValue>, k: KeyValue)
    requires k !in keys
    ensures IndexOf(keys + [k], k) == |keys|
  {
  }

  /** A missing key is numbered by the count of keys, so it can land on a
      slot that a caller's numeric key already holds and overwrite it. */
  lemma NullKeyCanOverwrite(a: string, b: string)
    ensures Claim(Claim(EmptyTable, Some(NumKey(1)), a), None, b) == SlotTable([NumKey(1)], map[0 := b])
  {
    var t1 := Claim(EmptyTable, Some(NumKey(1)), a);
    assert t1 == SlotTable([NumKey(1)], map[0 := a]);
    assert DescriptorKey(t1.keys, None) == NumKey(1);
  }

  /** Joins the markup of the given slots, in the given order. */
  function JoinSlots(order: seq<nat>, children: map<nat, string>): string
    requires forall o :: o in order ==> o in children
  {
    if order == [] then "" else children[order[0]] + JoinSlots(order[1..], children)
  }

  lemma SortedSlotsInRange(n: nat)
    ensures forall o :: o in SortSlots(Range(n)) ==> o < n
  {
    SortSlotsSpec(Range(n));
    forall o | o in SortSlots(Range(n)) ensures o < n {
      assert o in multiset(Range(n));
    }
  }

  /** `toString` of a pass: the slots joined in the order of `sort()`. */
  function Joined(t: SlotTable): string
    requires SlotsValid(t)
  {
    SortedSlotsInRange(|t.keys|);
    JoinSlots(SortSlots(Range(|t.keys|)), t.children)
  }

  // ---------------------------------------------------------------------
  // Attributes of an element pass

  /** The attribute record, as (name, value) pairs in insertion order. */
  type AttrRecord = seq<(string, string)>

  function Names(attrs: AttrRecord): (r: seq<string>)
    ensures |r| == |attrs| && forall i :: 0 <= i < |attrs| ==> r[i] == attrs[i].0
  {
    seq(|attrs|, i requires 0 <= i < |attrs| => attrs[i].0)
  }

  /** `attrs[name] = value`: an existing entry keeps its place. */
  function RecordSet(attrs: AttrRecord, name: string, value: string): (r: AttrRecord)
    ensures NoDup(Names(attrs)) ==> NoDup(Names(r))
    ensures (name, value) in r
    ensures name in Names(attrs) ==> Names(r) == Names(attrs)
    ensures name !in Names(attrs) ==> r == attrs + [(name, value)]
    ensures forall i :: 0 <= i < |attrs| && attrs[i].0 != name ==> r[i] == attrs[i]
  {
    if name in Names(attrs) then
      var i := IndexOf(Names(attrs), name);
      var r := attrs[i := (name, value)];
      assert Names(r) == Names(attrs)[i := name] == Names(attrs);
      r
    else
      attrs + [(name, value)]
  }

  /** `delete attrs[name]`. */
  function RecordDelete(attrs: AttrRecord, name: string): (r: AttrRecord)
    ensures name !in Names(r)
    ensures forall e :: e in r <==> e in attrs && e.0 != name
    ensures NoDup(Names(attrs)) ==> NoDup(Names(r))
    decreases |attrs|
  {
    if attrs == [] then []
    else if attrs[0].0 == name then RecordDelete(attrs[1..], name)
    else [attrs[0]] + RecordDelete(attrs[1..], name)
  }

  /** The key `pushElementAttr` stores under: the trimmed name, lower-cased
      when the element's namespace is null or XHTML; `None` when the lower-cased
      name is `is`. */
  function AttrKey(name: string, elementNamespace: Option<string>): (r: Option<string>)
    ensures ToLower(Trim(name)) == "is" <==> r.None?
    ensures r.Some? && (elementNamespace.None? || elementNamespace == Some(XHTML)) ==> r.value == ToLower(Trim(name))
    ensures r.Some? && elementNamespace.Some? && elementNamespace != Some(XHTML) ==> r.value == Trim(name)
  {
    var trimmed := Trim(name);
    var normalized := ToLower(trimmed);
    if normalized == "is" then None
    else if elementNamespace == Some(XHTML) || elementNamespace.None? then Some(normalized)
    else Some(trimmed)
  }

  /** `ElementWriteContext.pushElementAttr`; the attribute's own namespace is
      not consulted. */
  function AttrStep(attrs: AttrRecord, a: AttrDescriptor, elementNamespace: Option<string>): (r: AttrRecord)
    ensures NoDup(Names(attrs)) ==> NoDup(Names(r))
  {
    match AttrKey(a.name, elementNamespace)
    case None => attrs
    case Some(k) => if a.value.AttrFalse? then RecordDelete(attrs, k) else RecordSet(attrs, k, a.value.s)
  }

  lemma AttrStepSpec(attrs: AttrRecord, a: AttrDescriptor, ns: Option<string>)
    ensures ToLower(Trim(a.name)) == "is" ==> AttrStep(attrs, a, ns) == attrs
    ensures AttrKey(a.name, ns).Some? && a.value.AttrFalse? ==>
      AttrKey(a.name, ns).value !in Names(AttrStep(attrs, a, ns))
    ensures AttrKey(a.name, ns).Some? && a.value.AttrString? ==>
      (AttrKey(a.name, ns).value, a.value.s) in AttrStep(attrs, a, ns)
  {
  }

  /** The attribute pushes of a content, applied in order. */
  function AttrsFold(attrs: AttrRecord, ps: seq<Push>, ns: Option<string>): (r: AttrRecord)
    ensures NoDup(Names(attrs)) ==> NoDup(Names(r))
    decreases |ps|
  {
    if ps == [] then attrs
    else AttrsFold(if ps[0].PushAttr? then AttrStep(attrs, ps[0].attr, ns) else attrs, ps[1..], ns)
  }

  lemma {:induction false} AttrsFoldSnoc(attrs: AttrRecord, ps: seq<Push>, p: Push, ns: Option<string>)
    ensures AttrsFold(attrs, ps + [p], ns) ==
      (var r := AttrsFold(attrs, ps, ns); if p.PushAttr? then AttrStep(r, p.attr, ns) else r)
    decreases |ps|
  {
    if ps == [] {
      assert [p][1..] == [];
    } else {
      assert (ps + [p])[1..] == ps[1..] + [p];
      AttrsFoldSnoc(if ps[0].PushAttr? then AttrStep(attrs, ps[0].attr, ns) else attrs, ps[1..], p, ns);
    }
  }

  /** One entry of `writeElementAttrs`: a non-empty value is quoted and
      escaped, an empty one leaves the bare name. */
  function AttrPart(name: string, value: string): string {
    if value != "" then name + "=\"" + EscapeHTMLChars(value) + "\"" else name
  }

  /** `Array.prototype.join(sep)`. */
  function JoinWith(parts: seq<string>, sep: string): (r: string)
    ensures parts == [] ==> r == ""
    ensures |parts| == 1 ==> r == parts[0]
    decreases |parts|
  {
    if parts == [] then "" else if |parts| == 1 then parts[0] else parts[0] + sep + JoinWith(parts[1..], sep)
  }

  lemma {:induction false} JoinWithSnoc(parts: seq<string>, x: string, sep: string)
    requires parts != []
    ensures JoinWith(parts + [x], sep) == JoinWith(parts, sep) + sep + x
    decreases |parts|
  {
    if |parts| == 1 {
      assert (parts + [x])[1..] == [x];
    } else {
      assert (parts + [x])[1..] == parts[1..] + [x];
      JoinWithSnoc(parts[1..], x, sep);
    }
  }

  function AttrParts(attrs: AttrRecord): (r: seq<string>)
    ensures |r| == |attrs| && forall i :: 0 <= i < |attrs| ==> r[i] == AttrPart(attrs[i].0, attrs[i].1)
  {
    seq(|attrs|, i requires 0 <= i < |attrs| => AttrPart(attrs[i].0, attrs[i].1))
  }

  /** `writeElementAttrs`: builds the parts in a loop and joins them. */
  method WriteElementAttrs(attrs: AttrRecord) returns (r: string)
    ensures r == JoinWith(AttrParts(attrs), " ")
  {
    var o: seq<string> := [];
    for i := 0 to |attrs|
      invariant o == AttrParts(attrs[..i])
    {
      var (name, value) := attrs[i];
      o := o + [if value != "" then name + "=\"" + EscapeHTMLChars(value) + "\"" else name];
    }
    assert attrs[..|attrs|] == attrs;
    r := JoinWith(o, " ");
  }

  /** The ` is="..."` part of the opening tag, when the options name one. */
  function IsPart(options: Option<CreationOptions>): string {
    if options.Some? && options.value.isName.Some? && options.value.isName.value != "" then
      " is=\"" + EscapeHTMLChars(options.value.isName.value) + "\""
    else ""
  }

  function OpenTag(tagName: string, isPart: string, attrsText: string): string {
    "<" + tagName + isPart + (if |attrsText| > 0 then " " + attrsText else "")
  }

  /** `ElementWriteContext.toString`. */
  function ElementMarkup(tagName: string, isPart: string, attrsText: string, inner: string): string {
    if inner != "" || tagName !in SelfClose then
      OpenTag(tagName, isPart, attrsText) + ">" + inner + "</" + tagName + ">"
    else
      OpenTag(tagName, isPart, attrsText) + " />"
  }

  /** The self-closing form is used exactly for an empty void element, and
      otherwise the inner markup sits verbatim between the tags. */
  lemma ElementMarkupShape(tagName: string, isPart: string, attrsText: string, inner: string)
    ensures var r := ElementMarkup(tagName, isPart, attrsText, inner);
      var open := OpenTag(tagName, isPart, attrsText);
      && (inner == "" && tagName in SelfClose <==> r == open + " />")
      && (inner != "" || tagName !in SelfClose <==> r == open + ">" + inner + "</" + tagName + ">")
  {
    var r := ElementMarkup(tagName, isPart, attrsText, inner);
    var open := OpenTag(tagName, isPart, attrsText);
    var selfClosed := open + " />";
    var paired := open + ">" + inner + "</" + tagName + ">";
    assert selfClosed[|open|] == ' ';
    assert paired[|open|] == '>';
    assert selfClosed != paired;
  }

  // ---------------------------------------------------------------------
  // The functional specification of a pass

  /** A pass over the context calls of a content function: text, comment and
      element pushes claim slots; every other push is ignored. */
  function Fold(t: SlotTable, ps: seq<Push>): (r: SlotTable)
    ensures SlotsValid(t) ==> SlotsValid(r)
    decreases ps
  {
    if ps == [] then t else Fold(Step(t, ps[0]), ps[1..])
  }

  function Step(t: SlotTable, p: Push): (r: SlotTable)
    ensures SlotsValid(t) ==> SlotsValid(r)
    decreases p
  {
    match p
    case PushText(d) => Claim(t, d.key, WriteText(d))
    case PushComment(d) => Claim(t, d.key, WriteComment(d))
    case PushElement(d) => Claim(t, d.key, ElementHTML(d))
    case _ => t
  }

  /** `writeElement`: the markup of one element descriptor. A content function
      gives the joined slots of its own pass and the attributes it pushed; a
      string is inserted as it is; no content gives the empty string. */
  function ElementHTML(d: ElementDescriptor): string
    decreases d
  {
    var attrs := if d.content.Some? && d.content.value.Body? then AttrsFold([], d.content.value.pushes, d.namespaceURI) else [];
    var inner :=
      match d.content
      case None => ""
      case Some(Markup(h)) => h
      case Some(Body(ps, _)) => Joined(Fold(EmptyTable, ps));
    ElementMarkup(d.tagName, IsPart(d.options), JoinWith(AttrParts(attrs), " "), inner)
  }

  lemma {:induction false} FoldSnoc(t: SlotTable, ps: seq<Push>, p: Push)
    ensures Fold(t, ps + [p]) == Step(Fold(t, ps), p)
    decreases |ps|
  {
    if ps == [] {
      assert [p][1..] == [];
    } else {
      assert (ps + [p])[1..] == ps[1..] + [p];
      FoldSnoc(Step(t, ps[0]), ps[1..], p);
    }
  }

  /** `write`: the slots of the top-level pass, joined. */
  function Serialize(ps: seq<Push>): string {
    Joined(Fold(EmptyTable, ps))
  }

  /** An empty text still claims a slot. */
  lemma EmptyTextClaimsSlot(t: SlotTable, key: Key)
    requires DescriptorKey(t.keys, key) !in t.keys
    ensures Fold(t, [PushText(TextDescriptor(key, ""))]).keys == t.keys + [DescriptorKey(t.keys, key)]
  {
    assert [PushText(TextDescriptor(key, ""))][1..] == [];
  }

  /** The void set is case-sensitive: an upper-case `BR` gets a closing tag. */
  lemma VoidSetIsCaseSensitive()
    ensures ElementHTML(ElementDescriptor(None, "br", None, None, None)) == "<br />"
    ensures ElementHTML(ElementDescriptor(None, "BR", None, None, None)) == "<BR></BR>"
  {
    assert "BR" !in SelfClose;
  }

  // ---------------------------------------------------------------------
  // The contexts

  class WriteContext {
    var keys: seq<KeyValue>
    var children: map<nat, string>

    function Table(): SlotTable
      reads this
    {
      SlotTable(keys, children)
    }

    ghost predicate Valid()
      reads this
    {
      SlotsValid(Table())
    }

    constructor ()
      ensures Table() == EmptyTable
    {
      keys := [];
      children := map[];
    }

    /** `getKeyOrder`, which registers an unseen key. */
    method GetKeyOrder(k: KeyValue) returns (o: nat)
      modifies this
      ensures o == KeyOrder(old(keys), k)
      ensures keys == SetAdd(old(keys), k) && children == old(children)
      ensures o < |keys| && keys[o] == k
    {
      if k !in keys {
        keys := keys + [k];
      }
      o := IndexOf(keys, k);
    }

    method PushText(d: TextDescriptor)
      modifies this
      ensures Table() == Claim(old(Table()), d.key, WriteText(d))
    {
      var o := GetKeyOrder(DescriptorKey(keys, d.key));
      children := children[o := EscapeHTMLChars(d.content)];
    }

    method PushComment(d: CommentDescriptor)
      modifies this
      ensures Table() == Claim(old(Table()), d.key, WriteComment(d))
    {
      var o := GetKeyOrder(DescriptorKey(keys, d.key));
      children := children[o := "<!-- " + EscapeHTMLChars(d.content) + " -->"];
    }

    method PushElement(d: ElementDescriptor, registry: ContextRegistry<object>)
      modifies this, registry
      ensures Table() == Claim(old(Table()), d.key, ElementHTML(d))
      ensures registry.stack == old(registry.stack)
      decreases d, 1
    {
      var o := GetKeyOrder(DescriptorKey(keys, d.key));
      var html := WriteElement(d, registry);
      children := children[o := html];
    }

    /** One call of a content function into this context; attribute and
        callback pushes are ignored. */
    method Apply(p: Push, registry: ContextRegistry<object>)
      modifies this, registry
      ensures Table() == Step(old(Table()), p)
      ensures registry.stack == old(registry.stack)
      decreases p
    {
      match p {
        case PushText(d) => PushText(d);
        case PushComment(d) => PushComment(d);
        case PushElement(d) => PushElement(d, registry);
        case _ =>
      }
    }

    /** `render`: the content function's calls, one after the other. */
    method Run(ps: seq<Push>, registry: ContextRegistry<object>)
      modifies this, registry
      ensures Table() == Fold(old(Table()), ps)
      ensures registry.stack == old(registry.stack)
      decreases ps
    {
      ghost var t0 := Table();
      for i := 0 to |ps|
        invariant Table() == Fold(t0, ps[..i])
        invariant registry.stack == old(registry.stack)
      {
        var p := ps[i];
        Apply(p, registry);
        FoldSnoc(t0, ps[..i], p);
        assert ps[..i + 1] == ps[..i] + [p];
      }
      assert ps[..|ps|] == ps;
    }

    /** `toString`. */
    function ToString(): string
      reads this
      requires Valid()
    {
      Joined(Table())
    }
  }

  class ElementWriteContext {
    /** The slots this context inherits from `WriteContext`. */
    const slots: WriteContext
    var attrs: AttrRecord
    const tagName: string
    const namespaceURI: Option<string>
    const options: Option<CreationOptions>
    var innerHTML: string

    constructor (namespaceURI: Option<string>, tagName: string, options: Option<CreationOptions>)
      ensures fresh(slots) && slots.Table() == EmptyTable
      ensures attrs == [] && innerHTML == ""
      ensures this.namespaceURI == namespaceURI && this.tagName == tagName && this.options == options
    {
      slots := new WriteContext();
      attrs := [];
      this.namespaceURI := namespaceURI;
      this.tagName := tagName;
      this.options := options;
      innerHTML := "";
    }

    method PushElementAttr(a: AttrDescriptor)
      modifies this
      ensures attrs == AttrStep(old(attrs), a, namespaceURI)
      ensures innerHTML == old(innerHTML)
    {
      var trimmed := Trim(a.name);
      var normalized := ToLower(trimmed);
      if normalized == "is" {
        return;
      }
      var key := if namespaceURI == Some(XHTML) || namespaceURI.None? then normalized else trimmed;
      if a.value.AttrFalse? {
        attrs := RecordDelete(attrs, key);
      } else {
        attrs := RecordSet(attrs, key, a.value.s);
      }
    }

    /** One call of a content function into this context: attributes land
        here, children in the inherited slots, callbacks are ignored. */
    method Apply(p: Push, registry: ContextRegistry<object>)
      modifies this, slots, registry
      ensures slots.Table() == Step(old(slots.Table()), p)
      ensures attrs == if p.PushAttr? then AttrStep(old(attrs), p.attr, namespaceURI) else old(attrs)
      ensures registry.stack == old(registry.stack)
      decreases p
    {
      match p {
        case PushText(d) => slots.PushText(d);
        case PushComment(d) => slots.PushComment(d);
        case PushElement(d) => slots.PushElement(d, registry);
        case PushAttr(a) => PushElementAttr(a);
        case _ =>
      }
    }

    /** The calls of a content function, run against this context:
        attributes land here, children in the inherited slots. */
    method RunContent(ps: seq<Push>, registry: ContextRegistry<object>)
      modifies this, slots, registry
      ensures slots.Table() == Fold(old(slots.Table()), ps)
      ensures attrs == AttrsFold(old(attrs), ps, namespaceURI)
      ensures registry.stack == old(registry.stack)
      decreases ps, 1
    {
      ghost var t0 := slots.Table();
      ghost var a0 := attrs;
      for i := 0 to |ps|
        invariant slots.Table() == Fold(t0, ps[..i])
        invariant attrs == AttrsFold(a0, ps[..i], namespaceURI)
        invariant registry.stack == old(registry.stack)
      {
        ApplyAt(ps, i, registry, t0, a0);
      }
      assert ps[..|ps|] == ps;
    }

    /** Call `i` of a content function, after the calls before it. */
    method ApplyAt(ps: seq<Push>, i: nat, registry: ContextRegistry<object>, ghost t0: SlotTable, ghost a0: AttrRecord)
      requires i < |ps|
      requires slots.Table() == Fold(t0, ps[..i]) && attrs == AttrsFold(a0, ps[..i], namespaceURI)
      modifies this, slots, registry
      ensures slots.Table() == Fold(t0, ps[..i + 1]) && attrs == AttrsFold(a0, ps[..i + 1], namespaceURI)
      ensures registry.stack == old(registry.stack)
      decreases ps, 0
    {
      var p := ps[i];
      Apply(p, registry);
      assert ps[..i + 1] == ps[..i] + [p];
      assert slots.Table() == Fold(t0, ps[..i + 1]) by {
        FoldSnoc(t0, ps[..i], p);
      }
      assert attrs == AttrsFold(a0, ps[..i + 1], namespaceURI) by {
        AttrsFoldSnoc(a0, ps[..i], p, namespaceURI);
      }
    }

    /** `render`: a content function's calls are run and the slots joined
        into the inner markup; a string becomes the inner markup; no content
        gives `''`. */
    method Render(content: Option<Content>, registry: ContextRegistry<object>)
      requires slots.Valid()
      modifies this, slots, registry
      ensures slots.Valid()
      ensures content.Some? && content.value.Body? ==>
        && slots.Table() == Fold(old(slots.Table()), content.value.pushes)
        && attrs == AttrsFold(old(attrs), content.value.pushes, namespaceURI)
        && innerHTML == Joined(slots.Table())
      ensures content.None? ==> innerHTML == "" && attrs == old(attrs)
      ensures content.Some? && content.value.Markup? ==> innerHTML == content.value.html && attrs == old(attrs)
      ensures content.None? || content.value.Markup? ==> slots.Table() == old(slots.Table())
      ensures registry.stack == old(registry.stack)
      decreases content
    {
      if content.None? {
        innerHTML := "";
      } else if content.value.Markup? {
        innerHTML := content.value.html;
      } else {
        RunContent(content.value.pushes, registry);
        innerHTML := slots.ToString();
      }
    }

    method ToString() returns (s: string)
      ensures s == ElementMarkup(tagName, IsPart(options), JoinWith(AttrParts(attrs), " "), innerHTML)
    {
      var isPart := if options.Some? && options.value.isName.Some? && options.value.isName.value != "" then
        " is=\"" + EscapeHTMLChars(options.value.isName.value) + "\"" else "";
      var a := WriteElementAttrs(attrs);
      if innerHTML != "" || tagName !in SelfClose {
        s := "<" + tagName + isPart + (if |a| > 0 then " " + a else "") + ">" + innerHTML + "</" + tagName + ">";
      } else {
        s := "<" + tagName + isPart + (if |a| > 0 then " " + a else "") + " />";
      }
    }
  }

  /** `writeElement`: one element pass on a fresh context, pushed on the
      registry for the duration of its content. */
  method WriteElement(d: ElementDescriptor, registry: ContextRegistry<object>) returns (s: string)
    modifies registry
    ensures s == ElementHTML(d)
    ensures registry.stack == old(registry.stack)
    decreases d, 0
  {
    ghost var attrs := if d.content.Some? && d.content.value.Body? then AttrsFold([], d.content.value.pushes, d.namespaceURI) else [];
    ghost var inner := match d.content
      case None => ""
      case Some(Markup(h)) => h
      case Some(Body(ps, _)) => Joined(Fold(EmptyTable, ps));
    var ctx := new ElementWriteContext(d.namespaceURI, d.tagName, d.options);
    var pushed := registry.Push(ctx);
    ctx.Render(d.content, registry);
    assert ctx.attrs == attrs && ctx.innerHTML == inner;
    registry.Pop();
    PushThenPopRestores(old(registry.stack), ctx);
    s := ctx.ToString();
  }

  /** `write`: the top-level pass. */
  method Write(ps: seq<Push>, registry: ContextRegistry<object>) returns (s: string)
    modifies registry
    ensures s == Serialize(ps)
    ensures registry.stack == old(registry.stack)
  {
    var ctx := new WriteContext();
    var pushed := registry.Push(ctx);
    ctx.Run(ps, registry);
    registry.Pop();
    PushThenPopRestores(old(registry.stack), ctx);
    s := ctx.ToString();
  }
}
