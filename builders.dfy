/** The builder functions of src/attr.ts, src/element.ts, src/text.ts and
    src/comment.ts. Each one normalises its arguments, decides whether to
    call the current context, and builds the descriptor it passes. Whether a
    context is current is the boolean `hasContext` (what `context.peek()`
    answered). */
module Builders {
  import opened Common
  import opened Descriptors

  /** What a builder call does: hand exactly one descriptor to the current
      context (and return what the context returns), or return at once with
      `undefined` or `null`. */
  datatype Outcome<D> = Pushes(descriptor: D) | ReturnsUndefined | ReturnsNull

  // ---------------------------------------------------------------------
  // src/attr.ts

  /** The descriptor `_pushElementAttr` builds: the value as `String(value)`,
      a missing namespace as `null`. */
  function AttrDescriptorOf(name: string, value: JsValue, namespaceURI: Option<string>): (d: AttrDescriptor)
    ensures d.name == name && d.value == AttrString(ToJsString(value))
    ensures d.namespaceURI == namespaceURI
  {
    AttrDescriptor(name, AttrString(ToJsString(value)), namespaceURI)
  }

  /** `attr(name, value, namespaceURI)`. */
  function Attr(name: string, value: JsValue, namespaceURI: Option<string>, hasContext: bool): (r: Outcome<AttrDescriptor>)
    ensures value.Absent() ==> r == ReturnsUndefined
    ensures !value.Absent() && Trim(name) == "" ==> r == ReturnsUndefined
    ensures r.Pushes? <==> !value.Absent() && Trim(name) != "" && hasContext
    ensures !value.Absent() && Trim(name) != "" && !hasContext ==> r == ReturnsNull
    ensures r.Pushes? ==> r.descriptor == AttrDescriptorOf(Trim(name), value, namespaceURI)
  {
    if value.Absent() then ReturnsUndefined
    else
      var trimmed := Trim(name);
      if trimmed == "" then ReturnsUndefined
      else if !hasContext then ReturnsNull
      else Pushes(AttrDescriptorOf(trimmed, value, namespaceURI))
  }

  /** An entry of the record given to `attrs`: a bare value, or a
      `[value, namespaceURI]` pair (a missing namespace is `None`). */
  datatype AttrsEntry = Plain(value: JsValue) | Pair(value: JsValue, namespaceURI: Option<string>)

  /** What `attr` would push for one entry, and nothing when it would push nothing. */
  function EntryPush(name: string, entry: AttrsEntry): seq<AttrDescriptor> {
    var ns := if entry.Pair? then entry.namespaceURI else None;
    match Attr(name, entry.value, ns, true)
    case Pushes(d) => [d]
    case _ => []
  }

  /** The pushes of `attr` applied to each entry in turn. */
  function AttrsSpec(entries: seq<(string, AttrsEntry)>): seq<AttrDescriptor>
    decreases |entries|
  {
    if entries == [] then []
    else AttrsSpec(entries[..|entries| - 1]) + EntryPush(entries[|entries| - 1].0, entries[|entries| - 1].1)
  }

  /** `attrs(inp)`, over the record's entries in enumeration order; returns
      the descriptors it hands to the context. Its own filters (skip a
      null/false entry, skip a blank name, skip a null/false value) push
      exactly what calling `attr` on every entry would. */
  method Attrs(entries: seq<(string, AttrsEntry)>, hasContext: bool) returns (pushed: seq<AttrDescriptor>)
    ensures pushed == if hasContext then AttrsSpec(entries) else []
  {
    pushed := [];
    if !hasContext {
      return;
    }
    for i := 0 to |entries|
      invariant pushed == AttrsSpec(entries[..i])
    {
      assert entries[..i + 1][..i] == entries[..i];
      var (key, entry) := entries[i];
      if entry.Plain? && entry.value.Absent() {
        continue;
      }
      var name := Trim(key);
      if name == "" {
        continue;
      }
      var value, namespaceURI := entry.value, if entry.Pair? then entry.namespaceURI else None;
      if value.Absent() {
        continue;
      }
      pushed := pushed + [AttrDescriptorOf(name, value, namespaceURI)];
    }
    assert entries[..|entries|] == entries;
  }

  /** Every descriptor `attrs` pushes has a trimmed, non-blank name and a
      string value; empty strings and zero are not filtered. */
  lemma {:induction false} AttrsPushesClean(entries: seq<(string, AttrsEntry)>)
    ensures forall d :: d in AttrsSpec(entries) ==> d.name != "" && Trim(d.name) == d.name && d.value.AttrString?
  {
    if entries != [] {
      var init := entries[..|entries| - 1];
      var (name, entry) := entries[|entries| - 1];
      AttrsPushesClean(init);
      TrimIdempotent(name);
      var last := EntryPush(name, entry);
      assert forall d :: d in last ==> d.name == Trim(name) && Trim(name) != "" && d.value.AttrString?;
      assert AttrsSpec(entries) == AttrsSpec(init) + last;
    }
  }

  lemma EmptyAndZeroValuesArePushed(name: string, namespaceURI: Option<string>)
    requires Trim(name) != ""
    ensures Attr(name, Str(""), namespaceURI, true) == Pushes(AttrDescriptor(Trim(name), AttrString(""), namespaceURI))
    ensures Attr(name, Num("0"), namespaceURI, true) == Pushes(AttrDescriptor(Trim(name), AttrString("0"), namespaceURI))
  {
    assert !Str("").Absent() && ToJsString(Str("")) == "";
    assert !Num("0").Absent() && ToJsString(Num("0")) == "0";
  }

  // ---------------------------------------------------------------------
  // src/element.ts

  /** The third item of a tag tuple. */
  datatype OptionsArg = NoOptions | FalseOptions | GivenOptions(options: CreationOptions)

  /** `tag`: a tag name, or a `[tagName, namespaceURI, options]` tuple whose
      missing items are `None`/`NoOptions`. */
  datatype TagArg = TagName(name: string) | TagTuple(name: string, namespaceURI: Option<string>, options: OptionsArg)

  /** `content`: absent (`null`/`undefined`), `false`, or given. */
  datatype ContentArg = NoContent | FalseContent | GivenContent(content: Content)

  /** `element(key, tag, content)`. */
  function Element(key: Key, tag: TagArg, content: ContentArg, hasContext: bool): (r: Outcome<ElementDescriptor>)
    ensures r.Pushes? <==> hasContext
    ensures !hasContext ==> r == ReturnsNull
    ensures r.Pushes? ==> r.descriptor.key == key && r.descriptor.tagName == tag.name
    ensures r.Pushes? && tag.TagName? ==> r.descriptor.namespaceURI == None && r.descriptor.options == None
    ensures r.Pushes? && tag.TagTuple? ==>
      r.descriptor.namespaceURI == tag.namespaceURI &&
      r.descriptor.options == (if tag.options.GivenOptions? then Some(tag.options.options) else None)
    ensures r.Pushes? ==> r.descriptor.content == (if content.GivenContent? then Some(content.content) else None)
  {
    var (tagName, namespaceURI, options) :=
      match tag
      case TagName(n) => (n, None, NoOptions)
      case TagTuple(n, ns, o) => (n, ns, o);
    if !hasContext then ReturnsNull
    else Pushes(ElementDescriptor(
      key,
      tagName,
      namespaceURI,
      if options.FalseOptions? || options.NoOptions? then None else Some(options.options),
      if content.FalseContent? || content.NoContent? then None else Some(content.content)))
  }

  /** The closure `defineElement(tag)` returns, called as
      `(key, content, is)`; `hasContext` is read when it is called. */
  function DefineElement(tag: TagArg): (Key, ContentArg, Option<string>, bool) -> Outcome<ElementDescriptor> {
    (key, content, isName, hasContext) => Element(key, tag, content, hasContext)
  }

  /** A defined element behaves like `element` on its tag and ignores `is`. */
  lemma DefinedElementIgnoresIs(tag: TagArg, key: Key, content: ContentArg, isName: Option<string>, hasContext: bool)
    ensures DefineElement(tag)(key, content, isName, hasContext) == Element(key, tag, content, hasContext)
    ensures DefineElement(tag)(key, content, isName, hasContext) == DefineElement(tag)(key, content, None, hasContext)
  {
  }

  // ---------------------------------------------------------------------
  // src/text.ts and src/comment.ts

  /** `text(key, value)`. */
  function Text(key: Key, value: JsValue, hasContext: bool): (r: Outcome<TextDescriptor>)
    ensures r.Pushes? <==> !value.Absent() && hasContext
    ensures !r.Pushes? ==> r == ReturnsNull
    ensures r.Pushes? ==> r.descriptor == TextDescriptor(key, ToJsString(value))
  {
    if value.Absent() then ReturnsNull
    else if !hasContext then ReturnsNull
    else Pushes(TextDescriptor(key, ToJsString(value)))
  }

  /** `comment(key, value)`: unlike `text`, a filtered value returns `undefined`. */
  function Comment(key: Key, value: JsValue, hasContext: bool): (r: Outcome<CommentDescriptor>)
    ensures r.Pushes? <==> !value.Absent() && hasContext
    ensures value.Absent() ==> r == ReturnsUndefined
    ensures !value.Absent() && !hasContext ==> r == ReturnsNull
    ensures r.Pushes? ==> r.descriptor == CommentDescriptor(key, ToJsString(value))
  {
    if value.Absent() then ReturnsUndefined
    else if !hasContext then ReturnsNull
    else Pushes(CommentDescriptor(key, ToJsString(value)))
  }

  /** The builders do not filter the empty string: emptiness is the
      context's concern. */
  lemma EmptyTextAndCommentArePushed(key: Key)
    ensures Text(key, Str(""), true) == Pushes(TextDescriptor(key, ""))
    ensures Comment(key, Str(""), true) == Pushes(CommentDescriptor(key, ""))
  {
  }
}
