/** The decoded JSON body as the handler sees it (a Python `dict`, `list`,
    `str`, number, `bool` or `None`), and the Python operations the handler
    applies to it: `in`, subscription `[...]` and `dict.get`. Each raises
    the exception Python raises when applied to the wrong kind of value. */
module PyValue {
  import opened Wrappers
  import opened PyString

  /** A JSON value after decoding. Numbers are only carried along and
      compared, never computed with, so integers stand for all of them. */
  datatype Value =
    | JNull
    | JBool(b: bool)
    | JNum(n: int)
    | JStr(s: string)
    | JArr(items: seq<Value>)
    | JObj(fields: map<string, Value>)

  /** The Python exceptions the handler can raise and does not catch. */
  datatype PyError =
    | KeyError(key: string)       // `d[key]` on a dict without `key`
    | TypeError                   // `in` or `[...]` on a value that does not support it
    | AttributeError(name: string) // a method called on a value that lacks it
    | IndexError                  // a list index past its end

  /** Python's `key in container` for a string `key`. */
  function Contains(container: Value, key: string): (r: Result<bool, PyError>)
    ensures container.JObj? ==> r == Success(key in container.fields)
    ensures container.JArr? ==> r == Success(JStr(key) in container.items)
    ensures container.JStr? ==> r.Success? && (r.value <==> exists i :: OccursAt(container.s, key, i))
    ensures r.Failure? <==> container.JNull? || container.JBool? || container.JNum?
    ensures r.Failure? ==> r.error == TypeError
  {
    match container
    case JObj(m) => Success(key in m)
    case JArr(xs) => Success(JStr(key) in xs)
    case JStr(s) => Success(HasSubstring(s, key))
    case _ => Failure(TypeError)
  }

  /** Python's `container[key]` for a string `key`. */
  function Subscript(container: Value, key: string): Result<Value, PyError>
  {
    match container
    case JObj(m) => if key in m then Success(m[key]) else Failure(KeyError(key))
    case _ => Failure(TypeError)
  }

  /** Python's `d.get(key, default)`. */
  function Get(d: map<string, Value>, key: string, default: Value): Value
  {
    if key in d then d[key] else default
  }

  /** After `key in container` holds, `container[key]` fails exactly when
      `container` is a list or a string: only a dict maps the key it contains. */
  lemma ContainsThenSubscript(container: Value, key: string)
    requires Contains(container, key) == Success(true)
    ensures Subscript(container, key).Success? <==> container.JObj?
    ensures Subscript(container, key).Failure? ==> Subscript(container, key).error == TypeError
  {
  }

  /** On a dict, `[key]` succeeds exactly when `key in d` holds; on a list
      or string it raises `TypeError` whatever `in` answers. */
  lemma SubscriptIffContains(container: Value, key: string)
    requires container.JObj? || container.JArr? || container.JStr?
    ensures container.JObj? ==> (Subscript(container, key).Success? <==> Contains(container, key) == Success(true))
    ensures !container.JObj? ==> Contains(container, key).Success? && Subscript(container, key) == Failure(TypeError)
  {
  }

  /** `d.get(key, default)` behaves as `try: d[key] except KeyError: default`:
      it is `d[key]` when subscription succeeds, and the default when
      subscription raises, which it does only with a `KeyError` for that key. */
  lemma GetIsSubscriptOrDefault(d: map<string, Value>, key: string, default: Value)
    ensures match Subscript(JObj(d), key)
            case Success(v) => Get(d, key, default) == v
            case Failure(e) => e == KeyError(key) && Get(d, key, default) == default
  {
  }
}
