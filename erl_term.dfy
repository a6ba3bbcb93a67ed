/**
 * Erlang terms as the handlers of hello.c see them after erl_interface has
 * decoded a reply, and the C integer types the handlers write them into.
 */
module ErlTerm {

  datatype Option<+T> = None | Some(value: T)

  /** One byte of a binary or of a C string. */
  newtype byte = x: int | 0 <= x < 0x100

  /** A C `int`: the value an ERL_INTEGER term carries. */
  newtype int32 = x: int | -0x8000_0000 <= x < 0x8000_0000

  /**
   * A decoded Erlang term. Lists are proper lists, held as the sequence of
   * their elements; the empty list is List([]). A pid is an opaque
   * identifier of a backend process.
   */
  datatype Term =
    | Atom(name: string)
    | Int(value: int32)
    | Binary(bytes: seq<byte>)
    | List(items: seq<Term>)
    | Tuple(elems: seq<Term>)
    | Pid(id: nat)

  /** An Erlang string, as erl_format's `~s` builds it: the list of its character codes. */
  function StringTerm(s: seq<byte>): (t: Term)
    ensures t.List? && |t.items| == |s|
    ensures forall i :: 0 <= i < |s| ==> t.items[i] == Int(s[i] as int32)
  {
    List(seq(|s|, i requires 0 <= i < |s| => Int(s[i] as int32)))
  }

  /** The character codes of a list of byte-sized integers; None for any other term. */
  function StringValue(t: Term): (r: Option<seq<byte>>)
    ensures r.Some? <==> t.List? && forall i :: 0 <= i < |t.items| ==> IsByteInt(t.items[i])
  {
    if t.List? && forall i :: 0 <= i < |t.items| ==> IsByteInt(t.items[i]) then
      Some(seq(|t.items|, i requires 0 <= i < |t.items| && IsByteInt(t.items[i]) => t.items[i].value as int as byte))
    else
      None
  }

  predicate IsByteInt(t: Term) {
    t.Int? && 0 <= t.value < 0x100
  }

  /** Decoding a string term gives back the bytes it was built from. */
  lemma StringRoundTrip(s: seq<byte>)
    ensures StringValue(StringTerm(s)) == Some(s)
  {
    var t := StringTerm(s);
    assert forall i :: 0 <= i < |t.items| ==> IsByteInt(t.items[i]);
    assert StringValue(t).value == s;
  }

  /** Two strings build the same term only when they are the same string. */
  lemma StringTermInjective(s: seq<byte>, u: seq<byte>)
    requires StringTerm(s) == StringTerm(u)
    ensures s == u
  {
    StringRoundTrip(s);
    StringRoundTrip(u);
  }
}
