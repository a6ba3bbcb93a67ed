/**
 * The calls the handlers of hello.c make to the backend: every request is a
 * `gen_server:call(nefs, Msg)` whose message is a tuple tagged with the
 * operation, carrying the path as an Erlang string.
 */
module Requests {
  import opened ErlTerm

  /** One remote call: module, function and the argument list. */
  datatype Rpc = Rpc(target: string, fn: string, args: Term)

  /** What a handler asks the backend for. */
  datatype Request =
    | GetAttr(path: seq<byte>)
    | ReadDir(path: seq<byte>)
    | Open(path: seq<byte>, flags: int32)

  /** The server every filesystem request is addressed to. */
  const Server: string := "nefs"

  /** The operation tag the server dispatches on. */
  function Tag(req: Request): (tag: string)
    ensures req.GetAttr? <==> tag == "get_attr"
    ensures req.ReadDir? <==> tag == "read_dir"
    ensures req.Open? <==> tag == "open"
  {
    match req
    case GetAttr(_) => "get_attr"
    case ReadDir(_) => "read_dir"
    case Open(_, _) => "open"
  }

  /** The message that `gen_server:call` delivers to the server. */
  function Message(req: Request): (m: Term)
    ensures m.Tuple? && |m.elems| >= 2 && m.elems[1] == StringTerm(req.path)
    ensures m.elems[0] == Atom(Tag(req))
    ensures req.Open? <==> |m.elems| == 3
    ensures req.Open? ==> m.elems[2] == Int(req.flags)
  {
    match req
    case GetAttr(path) => Tuple([Atom("get_attr"), StringTerm(path)])
    case ReadDir(path) => Tuple([Atom("read_dir"), StringTerm(path)])
    case Open(path, flags) => Tuple([Atom("open"), StringTerm(path), Int(flags)])
  }

  /** The remote call a handler issues for a request. */
  function Encode(req: Request): (r: Rpc)
    ensures r.target == "gen_server" && r.fn == "call"
    ensures r.args.List? && |r.args.items| == 2 && r.args.items[0] == Atom(Server)
  {
    Rpc("gen_server", "call", List([Atom(Server), Message(req)]))
  }

  /** How the server reads a call: the request it carries, or None for any other call. */
  function Decode(r: Rpc): Option<Request> {
    if r.target != "gen_server" || r.fn != "call" then None
    else if !r.args.List? || |r.args.items| != 2 || r.args.items[0] != Atom(Server) then None
    else
      var m := r.args.items[1];
      if !m.Tuple? || |m.elems| < 2 || StringValue(m.elems[1]).None? then None
      else
        var path := StringValue(m.elems[1]).value;
        if m.elems == [Atom("get_attr"), m.elems[1]] then Some(GetAttr(path))
        else if m.elems == [Atom("read_dir"), m.elems[1]] then Some(ReadDir(path))
        else if |m.elems| == 3 && m.elems[0] == Atom("open") && m.elems[2].Int? then Some(Open(path, m.elems[2].value))
        else None
  }

  /** The server recovers every request exactly as the handler made it. */
  lemma DecodeEncode(req: Request)
    ensures Decode(Encode(req)) == Some(req)
  {
    StringRoundTrip(req.path);
  }

  /** Different requests never produce the same call. */
  lemma EncodeInjective(req1: Request, req2: Request)
    requires Encode(req1) == Encode(req2)
    ensures req1 == req2
  {
    DecodeEncode(req1);
    DecodeEncode(req2);
  }
}
