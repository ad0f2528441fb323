/** The descriptor protocol shared by the live-tree and the string back-ends
    (the interfaces of src/context.ts): what a builder hands to the current
    context, and the lifecycle callbacks it may register. User closures are
    represented as data: a content function is the sequence of context calls
    it makes, and a callback is an opaque id together with what it returns. */
module Descriptors {
  import opened Common

  /** The XHTML namespace, which both back-ends treat like no namespace. */
  const XHTML: string := "http://www.w3.org/1999/xhtml"

  /** A descriptor key, restricted to integers and strings. On these values
      `===` (the live back-end's search) and the SameValueZero of a `Map`
      (the string back-end) both agree with equality. */
  datatype KeyValue = NumKey(n: int) | StrKey(s: string)

  /** A descriptor key; `None` stands for `null` and `undefined`. */
  type Key = Option<KeyValue>

  /** The run-time values a builder accepts. A number is carried as the text
      `String()` gives it. */
  datatype JsValue = Undefined | Null | False | Str(s: string) | Num(text: string) {
    /** `null == v || false === v`: the values every builder filters out. */
    predicate Absent() {
      Undefined? || Null? || False?
    }
  }

  /** `String(v)`. */
  function ToJsString(v: JsValue): string {
    match v
    case Undefined => "undefined"
    case Null => "null"
    case False => "false"
    case Str(s) => s
    case Num(t) => t
  }

  /** A cleanup or removed callback: its result is ignored and a failure is
      caught by the caller. */
  datatype Callback = Callback(id: nat, throws: bool)

  /** A created or linking callback, which may return a follow-up callback
      (removed, respectively cleanup). */
  datatype Hook = Hook(id: nat, returned: Option<Callback>)

  /** An updated callback, which may return a cleanup callback or fail. */
  datatype Updater = Updater(id: nat, throws: bool, returned: Option<Callback>)

  /** `ElementCreationOptions`: only `is` (here `isName`) is read. */
  datatype CreationOptions = CreationOptions(isName: Option<string>)

  /** An attribute value as the protocol carries it: a string, or the
      literal `false` a caller may pass directly to a context. */
  datatype AttrValue = AttrString(s: string) | AttrFalse

  datatype TextDescriptor = TextDescriptor(key: Key, content: string)

  datatype CommentDescriptor = CommentDescriptor(key: Key, content: string)

  datatype AttrDescriptor = AttrDescriptor(name: string, value: AttrValue, namespaceURI: Option<string>)

  datatype ElementDescriptor = ElementDescriptor(
    key: Key,
    tagName: string,
    namespaceURI: Option<string>,
    options: Option<CreationOptions>,
    content: Option<Content>)

  /** Element content: a markup string assigned wholesale, or a content
      function given as the context calls it makes and the cleanup callback
      it returns (if any). */
  datatype Content =
    | Markup(html: string)
    | Body(pushes: seq<Push>, unref: Option<Callback>)

  /** One call into the current context. */
  datatype Push =
    | PushText(text: TextDescriptor)
    | PushComment(comment: CommentDescriptor)
    | PushElement(element: ElementDescriptor)
    | PushAttr(attr: AttrDescriptor)
    | PushCleanup(cleanup: Callback)
    | PushCreated(created: Hook)
    | PushLinking(linking: Hook)
    | PushRemoved(removed: Callback)
    | PushUpdated(updated: Updater)
}
