/**
 The values the courier passes around: an optional, a byte, the exceptions
 the modelled code raises or catches, and the dynamically typed values that
 the payload record stores and delivers.
 */
module Values {

  /** A value that may be absent; `None` stands for Python's None. */
  datatype Option<+T> = None | Some(value: T)

  /** One byte of a decoded message or attachment. */
  newtype byte = b: int | 0 <= b < 256

  /** The exceptions that matter to the modelled code. */
  datatype Error =
    | TypeError   // a setter was given a value of the wrong type
    | KeyError    // a listing response lacked the 'messages' key
    | HttpError   // a call to the remote mailbox failed
    | AttributeError  // a method that does not exist was looked up

  /**
   A value as the payload record sees it. The record's setters accept any
   value at all and only some of them check its type, so the model keeps the
   type of each value visible.
   */
  datatype Value =
    | Nil                               // None
    | Bool(b: bool)
    | Int(i: int)
    | Str(s: string)
    | Bytes(bytes: seq<byte>)
    | List(items: seq<Value>)
    | Dict(entries: map<string, Value>)
    | Instance(part: AttachmentPart)    // an AttachmentPart object

  /** An attachment: a filename and its data, both stored as given. */
  datatype AttachmentPart = AttachmentPart(filename: Value, data: Value)

  /** Python truthiness: None, False, zero and empty containers are false; objects are true. */
  predicate Truthy(v: Value) {
    match v
    case Nil => false
    case Bool(b) => b
    case Int(i) => i != 0
    case Str(s) => |s| > 0
    case Bytes(bs) => |bs| > 0
    case List(items) => |items| > 0
    case Dict(entries) => |entries| > 0
    case Instance(_) => true
  }
}
