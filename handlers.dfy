/**
 * The four filesystem callbacks of hello.c. Each takes the reply term the
 * backend sent (the remote call itself is outside the model), classifies it
 * against the shapes the callback expects and turns it into the result the
 * kernel bridge sees: a filled stat record, a sequence of directory entries,
 * a stored file handle or copied bytes, or a negative errno.
 */
module Handlers {
  import opened ErlTerm
  import opened Matcher

  /** errno values (Linux and macOS agree on both). */
  const ENOENT: int := 2
  const EACCES: int := 13

  /** File-type bits of a mode_t. */
  const S_IFMT: bv32 := 0xF000
  const S_IFDIR: bv32 := 0x4000
  const S_IFREG: bv32 := 0x8000

  /** Permission bits of a mode_t (set-user-ID, set-group-ID, sticky and rwx for three classes). */
  const PERMISSIONS: bv32 := 0x0FFF

  // ---------------------------------------------------------------------------
  // Reply shapes, as the handlers spell them to the matcher

  const DirectoryPattern: Pattern := TupleOf([Lit(Atom("directory")), Var("Mode"), Var("Nlink")])
  const FilePattern: Pattern := TupleOf([Lit(Atom("file")), Var("Mode"), Var("Nlink"), Var("Size")])
  const AccessPattern: Pattern := TupleOf([Lit(Atom("error")), Lit(Atom("access"))])

  /** `{ok,X}` for the hole name each handler uses. */
  function OkPattern(x: string): Pattern {
    TupleOf([Lit(Atom("ok")), Var(x)])
  }

  // The same shapes, stated directly on the term

  predicate IsDirectoryReply(t: Term) {
    t.Tuple? && |t.elems| == 3 && t.elems[0] == Atom("directory")
  }

  predicate IsFileReply(t: Term) {
    t.Tuple? && |t.elems| == 4 && t.elems[0] == Atom("file")
  }

  predicate IsOkReply(t: Term) {
    t.Tuple? && |t.elems| == 2 && t.elems[0] == Atom("ok")
  }

  /**
   * What a successful fresh match of a tuple pattern says about the term:
   * it is a tuple of the pattern's arity, and each element is its pattern
   * filled from the bindings.
   */
  lemma MatchedTuple(ps: seq<Pattern>, t: Term)
    requires MatchFresh(TupleOf(ps), t).Some?
    ensures t.Tuple? && |t.elems| == |ps|
    ensures forall i :: 0 <= i < |ps| ==> Subst(ps[i], MatchFresh(TupleOf(ps), t).value) == Some(t.elems[i])
  {
    var b := MatchFresh(TupleOf(ps), t).value;
    MatchSound(TupleOf(ps), t, map[]);
    SubstAllAt(ps, b, t.elems);
  }

  /** A tuple whose elements are the patterns filled from `s` is matched. */
  lemma TupleMatched(ps: seq<Pattern>, t: Term, s: Bindings)
    requires t.Tuple? && |t.elems| == |ps|
    requires forall i :: 0 <= i < |ps| ==> Subst(ps[i], s) == Some(t.elems[i])
    ensures MatchFresh(TupleOf(ps), t).Some?
  {
    SubstAllEach(ps, s, t.elems);
    MatchComplete(TupleOf(ps), t, map[], s);
  }

  /** The matcher accepts `{directory,Mode,Nlink}` exactly on three-tuples tagged `directory`. */
  lemma MatchDirectory(t: Term)
    ensures MatchFresh(DirectoryPattern, t).Some? <==> IsDirectoryReply(t)
    ensures IsDirectoryReply(t) ==>
      VarContent(MatchFresh(DirectoryPattern, t).value, "Mode") == Some(t.elems[1]) &&
      VarContent(MatchFresh(DirectoryPattern, t).value, "Nlink") == Some(t.elems[2])
  {
    var ps := DirectoryPattern.elems;
    if IsDirectoryReply(t) {
      TupleMatched(ps, t, map["Mode" := t.elems[1], "Nlink" := t.elems[2]]);
    }
    if MatchFresh(DirectoryPattern, t).Some? {
      MatchedTuple(ps, t);
      assert Subst(ps[0], MatchFresh(DirectoryPattern, t).value) == Some(t.elems[0]);
    }
  }

  /** The matcher accepts `{file,Mode,Nlink,Size}` exactly on four-tuples tagged `file`. */
  lemma MatchFile(t: Term)
    ensures MatchFresh(FilePattern, t).Some? <==> IsFileReply(t)
    ensures IsFileReply(t) ==>
      VarContent(MatchFresh(FilePattern, t).value, "Mode") == Some(t.elems[1]) &&
      VarContent(MatchFresh(FilePattern, t).value, "Nlink") == Some(t.elems[2]) &&
      VarContent(MatchFresh(FilePattern, t).value, "Size") == Some(t.elems[3])
  {
    var ps := FilePattern.elems;
    if IsFileReply(t) {
      TupleMatched(ps, t, map["Mode" := t.elems[1], "Nlink" := t.elems[2], "Size" := t.elems[3]]);
    }
    if MatchFresh(FilePattern, t).Some? {
      MatchedTuple(ps, t);
      assert Subst(ps[0], MatchFresh(FilePattern, t).value) == Some(t.elems[0]);
    }
  }

  /** The matcher accepts `{ok,X}` exactly on pairs tagged `ok`, binding X to the second element. */
  lemma MatchOk(x: string, t: Term)
    ensures MatchFresh(OkPattern(x), t).Some? <==> IsOkReply(t)
    ensures IsOkReply(t) ==> VarContent(MatchFresh(OkPattern(x), t).value, x) == Some(t.elems[1])
  {
    var ps := OkPattern(x).elems;
    if IsOkReply(t) {
      TupleMatched(ps, t, map[x := t.elems[1]]);
    }
    if MatchFresh(OkPattern(x), t).Some? {
      MatchedTuple(ps, t);
      assert Subst(ps[0], MatchFresh(OkPattern(x), t).value) == Some(t.elems[0]);
    }
  }

  /** The matcher accepts `{error,access}` on that one term and no other. */
  lemma MatchAccess(t: Term)
    ensures MatchFresh(AccessPattern, t).Some? <==> t == Tuple([Atom("error"), Atom("access")])
  {
    var ps := AccessPattern.elems;
    if t == Tuple([Atom("error"), Atom("access")]) {
      TupleMatched(ps, t, map[]);
    }
    if MatchFresh(AccessPattern, t).Some? {
      MatchedTuple(ps, t);
      var b := MatchFresh(AccessPattern, t).value;
      assert Subst(ps[0], b) == Some(t.elems[0]);
      assert Subst(ps[1], b) == Some(t.elems[1]);
      assert t.elems == [Atom("error"), Atom("access")];
    }
  }

  // ---------------------------------------------------------------------------
  // getattr

  /** The C conversion of an `int` to the unsigned 32-bit mode_t, as a number. */
  function ModeT(m: int32): (r: nat)
    ensures r < 0x1_0000_0000
    ensures 0 <= m ==> r == m as int
    ensures m < 0 ==> r == m as int + 0x1_0000_0000
  {
    (m as int) % 0x1_0000_0000
  }

  /** The C conversion of an `int` to the unsigned 64-bit nlink_t. */
  function NlinkT(n: int32): (r: nat)
    ensures r < 0x1_0000_0000_0000_0000
    ensures 0 <= n ==> r == n as int
    ensures n < 0 ==> r == n as int + 0x1_0000_0000_0000_0000
  {
    (n as int) % 0x1_0000_0000_0000_0000
  }

  /**
   * `kind | Mode`: the file-type bits of `kind` added to the mode the backend
   * sent. Its permission bits are the backend's; when the backend sent no
   * file-type bits of its own, the file type is exactly `kind`'s.
   */
  function TypedMode(kind: bv32, m: int32): (r: bv32)
    requires kind == S_IFDIR || kind == S_IFREG
    ensures r & PERMISSIONS == (ModeT(m) as bv32) & PERMISSIONS
    ensures r & kind == kind
    ensures (ModeT(m) as bv32) & S_IFMT == 0 ==> r & S_IFMT == kind
  {
    var v := ModeT(m) as bv32;
    OrFileType(kind, v);
    kind | v
  }

  lemma OrFileType(kind: bv32, v: bv32)
    requires kind == S_IFDIR || kind == S_IFREG
    ensures (kind | v) & PERMISSIONS == v & PERMISSIONS
    ensures (kind | v) & kind == kind
    ensures v & S_IFMT == 0 ==> (kind | v) & S_IFMT == kind
  {
  }

  /** The fields of struct stat the model tracks; only mode, nlink and size are ever written. */
  datatype Stat = Stat(
    dev: nat, ino: nat, mode: bv32, nlink: nat, uid: nat, gid: nat,
    size: int, atime: int, mtime: int, ctime: int)

  /** A stat record after `memset(stbuf, 0, sizeof(struct stat))`. */
  const ZeroStat: Stat := Stat(0, 0, 0, 0, 0, 0, 0, 0, 0, 0)

  datatype AttrOutcome = AttrOutcome(res: int, st: Stat)

  /** A directory reply whose mode and link count are integers. */
  predicate IsDirectoryAttr(t: Term) {
    IsDirectoryReply(t) && t.elems[1].Int? && t.elems[2].Int?
  }

  /** A file reply whose mode, link count and size are integers. */
  predicate IsFileAttr(t: Term) {
    IsFileReply(t) && t.elems[1].Int? && t.elems[2].Int? && t.elems[3].Int?
  }

  /**
   * What getattr makes of a reply: the directory shape is tried first, then
   * the file shape; a matched shape with a non-integer field, or no match,
   * is -ENOENT with the record left as the memset made it.
   */
  function GetAttrReply(reply: Term): (r: AttrOutcome)
    ensures r.res == 0 <==> IsDirectoryAttr(reply) || IsFileAttr(reply)
    ensures r.res != 0 ==> r == AttrOutcome(-ENOENT, ZeroStat)
    ensures IsDirectoryAttr(reply) ==>
      r.st == ZeroStat.(mode := TypedMode(S_IFDIR, reply.elems[1].value),
                        nlink := NlinkT(reply.elems[2].value))
    ensures IsFileAttr(reply) ==>
      r.st == ZeroStat.(mode := TypedMode(S_IFREG, reply.elems[1].value),
                        nlink := NlinkT(reply.elems[2].value),
                        size := reply.elems[3].value as int)
  {
    MatchDirectory(reply);
    MatchFile(reply);
    match MatchFresh(DirectoryPattern, reply)
    case Some(b) =>
      (match (VarContent(b, "Mode"), VarContent(b, "Nlink"))
       case (Some(Int(m)), Some(Int(n))) =>
         AttrOutcome(0, ZeroStat.(mode := TypedMode(S_IFDIR, m), nlink := NlinkT(n)))
       case _ => AttrOutcome(-ENOENT, ZeroStat))
    case None =>
      match MatchFresh(FilePattern, reply)
      case Some(b) =>
        (match (VarContent(b, "Mode"), VarContent(b, "Nlink"), VarContent(b, "Size"))
         case (Some(Int(m)), Some(Int(n)), Some(Int(sz))) =>
           AttrOutcome(0, ZeroStat.(mode := TypedMode(S_IFREG, m), nlink := NlinkT(n), size := sz as int))
         case _ => AttrOutcome(-ENOENT, ZeroStat))
      case None => AttrOutcome(-ENOENT, ZeroStat)
  }

  /** A directory's size is never set: it stays the 0 of the memset. */
  lemma DirectorySizeZero(reply: Term)
    requires IsDirectoryAttr(reply)
    ensures GetAttrReply(reply).res == 0
    ensures GetAttrReply(reply).st.size == 0
    ensures GetAttrReply(reply).st.mode & S_IFDIR == S_IFDIR
  {
  }

  /** The caller's stat buffer, which getattr overwrites in place. */
  class StatBuf {
    var dev: nat
    var ino: nat
    var mode: bv32
    var nlink: nat
    var uid: nat
    var gid: nat
    var size: int
    var atime: int
    var mtime: int
    var ctime: int

    function Value(): Stat
      reads this
    {
      Stat(dev, ino, mode, nlink, uid, gid, size, atime, mtime, ctime)
    }

    /** A buffer holding whatever the caller left in it. */
    constructor (init: Stat)
      ensures Value() == init
    {
      dev, ino, mode, nlink, uid, gid := init.dev, init.ino, init.mode, init.nlink, init.uid, init.gid;
      size, atime, mtime, ctime := init.size, init.atime, init.mtime, init.ctime;
    }

    /** memset(stbuf, 0, sizeof(struct stat)) */
    method Zero()
      modifies this
      ensures Value() == ZeroStat
    {
      dev, ino, mode, nlink, uid, gid := 0, 0, 0, 0, 0, 0;
      size, atime, mtime, ctime := 0, 0, 0, 0;
    }
  }

  /** hello_getattr: zero the record, then fill it from the reply. */
  method GetAttr(reply: Term, stbuf: StatBuf) returns (res: int)
    modifies stbuf
    ensures res == GetAttrReply(reply).res
    ensures stbuf.Value() == GetAttrReply(reply).st
  {
    res := 0;
    stbuf.Zero();
    MatchDirectory(reply);
    MatchFile(reply);
    var dir := MatchFresh(DirectoryPattern, reply);
    if dir.Some? {
      var mode := VarContent(dir.value, "Mode");
      var nlink := VarContent(dir.value, "Nlink");
      if nlink.Some? && nlink.value.Int? && mode.Some? && mode.value.Int? {
        assert GetAttrReply(reply) ==
          AttrOutcome(0, ZeroStat.(mode := TypedMode(S_IFDIR, mode.value.value), nlink := NlinkT(nlink.value.value)));
        stbuf.mode := TypedMode(S_IFDIR, mode.value.value);
        stbuf.nlink := NlinkT(nlink.value.value);
      } else {
        res := -ENOENT;
      }
    } else {
      var file := MatchFresh(FilePattern, reply);
      if file.Some? {
        var mode := VarContent(file.value, "Mode");
        var nlink := VarContent(file.value, "Nlink");
        var size := VarContent(file.value, "Size");
        if nlink.Some? && nlink.value.Int? && mode.Some? && mode.value.Int? && size.Some? && size.value.Int? {
          assert GetAttrReply(reply) ==
            AttrOutcome(0, ZeroStat.(mode := TypedMode(S_IFREG, mode.value.value), nlink := NlinkT(nlink.value.value),
                                     size := size.value.value as int));
          stbuf.mode := TypedMode(S_IFREG, mode.value.value);
          stbuf.nlink := NlinkT(nlink.value.value);
          stbuf.size := size.value.value as int;
        } else {
          res := -ENOENT;
        }
      } else {
        res := -ENOENT;
      }
    }
  }

  // ---------------------------------------------------------------------------
  // readdir

  /** One call of the directory-fill callback: ".", ".." or a listed element's name. */
  datatype DirEntry = Dot | DotDot | Name(elem: Term)

  datatype DirOutcome = DirOutcome(res: int, entries: seq<DirEntry>)

  /** `{ok,Listing}` whose Listing is a list. */
  predicate IsListingReply(t: Term) {
    IsOkReply(t) && t.elems[1].List?
  }

  /** The fill calls of the loop for listed elements that are all names: ".", ".." and the name, for each. */
  function Triples(items: seq<Term>): seq<DirEntry>
    decreases |items|
  {
    if items == [] then []
    else Triples(items[..|items| - 1]) + [Dot, DotDot, Name(items[|items| - 1])]
  }

  /** The fill calls a corrected loop makes for names: the names alone, in listing order. */
  function Names(items: seq<Term>): (r: seq<DirEntry>)
    ensures |r| == |items|
    ensures forall i :: 0 <= i < |items| ==> r[i] == Name(items[i])
  {
    seq(|items|, i requires 0 <= i < |items| => Name(items[i]))
  }

  /** The index of the first listed element that is not a list, or the length when there is none. */
  function FirstNonList(items: seq<Term>): (k: nat)
    ensures k <= |items|
    ensures forall j :: 0 <= j < k ==> items[j].List?
    ensures k < |items| ==> !items[k].List?
    decreases |items|
  {
    if items == [] || !items[0].List? then 0
    else 1 + FirstNonList(items[1..])
  }

  /** Triples has three entries per element: ".", ".." and that element's name. */
  lemma {:induction false} TriplesAt(items: seq<Term>)
    ensures |Triples(items)| == 3 * |items|
    ensures forall i :: 0 <= i < |items| ==>
      Triples(items)[3 * i] == Dot && Triples(items)[3 * i + 1] == DotDot && Triples(items)[3 * i + 2] == Name(items[i])
    decreases |items|
  {
    if items != [] {
      var init := items[..|items| - 1];
      TriplesAt(init);
      assert forall i :: 0 <= i < |init| ==> init[i] == items[i];
    }
  }

  /**
   * What readdir makes of a reply, as written: for `{ok,Listing}` with a list
   * Listing, ".", ".." and the name for every element, in order, up to the
   * first element that is not a list; for that element only ".", "..", and
   * the result -ENOENT. Any other reply fills nothing and is -ENOENT.
   */
  function ReadDirReply(reply: Term): (r: DirOutcome)
    ensures !IsListingReply(reply) ==> r == DirOutcome(-ENOENT, [])
    ensures r.res == 0 || r.res == -ENOENT
    ensures r.res == 0 <==> IsListingReply(reply) && forall i :: 0 <= i < |reply.elems[1].items| ==> reply.elems[1].items[i].List?
    ensures r.res == 0 ==> r.entries == Triples(reply.elems[1].items)
    ensures r.res != 0 && IsListingReply(reply) ==>
      var items := reply.elems[1].items;
      exists k :: 0 <= k < |items| && (forall j :: 0 <= j < k ==> items[j].List?) && !items[k].List? &&
        r.entries == Triples(items[..k]) + [Dot, DotDot]
  {
    MatchOk("Listing", reply);
    match MatchFresh(OkPattern("Listing"), reply)
    case None => DirOutcome(-ENOENT, [])
    case Some(b) =>
      match VarContent(b, "Listing")
      case Some(List(items)) =>
        var k := FirstNonList(items);
        if k == |items| then
          assert items[..k] == items;
          DirOutcome(0, Triples(items))
        else
          DirOutcome(-ENOENT, Triples(items[..k]) + [Dot, DotDot])
      case _ => DirOutcome(-ENOENT, [])
  }

  /** Each listed element that is a name adds three entries, the last of them its name. */
  lemma ReadDirEntriesAt(reply: Term)
    requires ReadDirReply(reply).res == 0
    ensures |ReadDirReply(reply).entries| == 3 * |reply.elems[1].items|
    ensures forall i :: 0 <= i < |reply.elems[1].items| ==>
      ReadDirReply(reply).entries[3 * i] == Dot &&
      ReadDirReply(reply).entries[3 * i + 1] == DotDot &&
      ReadDirReply(reply).entries[3 * i + 2] == Name(reply.elems[1].items[i])
  {
    TriplesAt(reply.elems[1].items);
  }

  /** The first element that is not a list ends the walk: what comes after it is never looked at. */
  lemma ReadDirStopsAt(reply: Term, k: nat)
    requires IsListingReply(reply) && k < |reply.elems[1].items|
    requires forall j :: 0 <= j < k ==> reply.elems[1].items[j].List?
    requires !reply.elems[1].items[k].List?
    ensures ReadDirReply(reply) == DirOutcome(-ENOENT, Triples(reply.elems[1].items[..k]) + [Dot, DotDot])
    ensures |ReadDirReply(reply).entries| == 3 * k + 2
  {
    var items := reply.elems[1].items;
    TriplesAt(items[..k]);
    assert FirstNonList(items) == k;
    MatchOk("Listing", reply);
  }

  /** hello_readdir: walk the listing, filling ".", ".." and the element's name for each element. */
  method ReadDir(reply: Term) returns (res: int, entries: seq<DirEntry>)
    ensures DirOutcome(res, entries) == ReadDirReply(reply)
  {
    res := 0;
    entries := [];
    MatchOk("Listing", reply);
    var m := MatchFresh(OkPattern("Listing"), reply);
    if m.Some? {
      var listing := VarContent(m.value, "Listing");
      if listing.Some? && listing.value.List? {
        ghost var items := listing.value.items;
        ghost var i := 0;
        var tail := listing.value.items;
        while tail != []
          invariant 0 <= i <= |items| && tail == items[i..]
          invariant forall j :: 0 <= j < i ==> items[j].List?
          invariant entries == Triples(items[..i])
          invariant res == 0
        {
          var elem := tail[0];
          entries := entries + [Dot, DotDot];
          if elem.List? {
            entries := entries + [Name(elem)];
          } else {
            res := -ENOENT;
            break;
          }
          assert items[..i + 1][..i] == items[..i];
          tail := tail[1..];
          i := i + 1;
        }
        if res == 0 {
          assert items[..i] == items;
        } else {
          assert FirstNonList(items) == i;
        }
      } else {
        res := -ENOENT;
      }
    } else {
      res := -ENOENT;
    }
  }

  /** The entries that are not "." or "..". */
  function WithoutDots(entries: seq<DirEntry>): (r: seq<DirEntry>)
    ensures forall i :: 0 <= i < |r| ==> r[i].Name?
    decreases |entries|
  {
    if entries == [] then []
    else if entries[0].Name? then [entries[0]] + WithoutDots(entries[1..])
    else WithoutDots(entries[1..])
  }

  lemma {:induction false} WithoutDotsAppend(a: seq<DirEntry>, b: seq<DirEntry>)
    ensures WithoutDots(a + b) == WithoutDots(a) + WithoutDots(b)
    decreases |a|
  {
    if a != [] {
      WithoutDotsAppend(a[1..], b);
      assert (a + b)[0] == a[0];
      assert (a + b)[1..] == a[1..] + b;
      if a[0].Name? {
        assert WithoutDots(a + b) == [a[0]] + WithoutDots(a[1..] + b);
        assert WithoutDots(a) == [a[0]] + WithoutDots(a[1..]);
      } else {
        assert WithoutDots(a + b) == WithoutDots(a[1..] + b);
      }
    } else {
      assert a + b == b;
    }
  }

  /** Dropping the dot entries of the as-written fill calls leaves the names alone. */
  lemma {:induction false} WithoutDotsTriples(items: seq<Term>)
    ensures WithoutDots(Triples(items)) == Names(items)
    decreases |items|
  {
    if items != [] {
      var init := items[..|items| - 1];
      WithoutDotsTriples(init);
      WithoutDotsAppend(Triples(init), [Dot, DotDot, Name(items[|items| - 1])]);
      var last := [Dot, DotDot, Name(items[|items| - 1])];
      assert WithoutDots(last[2..]) == [Name(items[|items| - 1])];
      assert WithoutDots(last[1..]) == WithoutDots(last[2..]);
    }
  }

  /** How many times "." is filled. */
  function DotCount(entries: seq<DirEntry>): nat {
    multiset(entries)[Dot]
  }

  /** As written, "." is filled once per listed element: never for an empty listing, twice for two names. */
  lemma {:induction false} TriplesDotCount(items: seq<Term>)
    ensures DotCount(Triples(items)) == |items|
    decreases |items|
  {
    if items != [] {
      var init := items[..|items| - 1];
      TriplesDotCount(init);
      assert multiset(Triples(items)) == multiset(Triples(init)) + multiset([Dot, DotDot, Name(items[|items| - 1])]);
    }
  }

  /** The as-written loop on two concrete replies: no "." for an empty listing, two for two names. */
  lemma ReadDirDotsPerElement()
    ensures ReadDirReply(Tuple([Atom("ok"), List([])])) == DirOutcome(0, [])
    ensures ReadDirReply(Tuple([Atom("ok"), List([List([Int(97)]), List([Int(98)])])])) ==
      DirOutcome(0, [Dot, DotDot, Name(List([Int(97)])), Dot, DotDot, Name(List([Int(98)]))])
  {
    var items := [List([Int(97)]), List([Int(98)])];
    assert items[..1] == [items[0]];
    assert Triples(items) == Triples(items[..1]) + [Dot, DotDot, Name(items[1])];
    MatchOk("Listing", Tuple([Atom("ok"), List(items)]));
  }

  /**
   * readdir with "." and ".." filled once, before the walk, as a directory
   * listing has them; the names and the error behaviour are unchanged.
   */
  function ReadDirFixedReply(reply: Term): (r: DirOutcome)
    ensures !IsListingReply(reply) ==> r == DirOutcome(-ENOENT, [])
    ensures r.res == ReadDirReply(reply).res
    ensures IsListingReply(reply) ==>
      r.entries == [Dot, DotDot] + WithoutDots(ReadDirReply(reply).entries)
    ensures IsListingReply(reply) ==> DotCount(r.entries) == 1
    ensures r.res == 0 ==> r.entries == [Dot, DotDot] + Names(reply.elems[1].items)
  {
    MatchOk("Listing", reply);
    match MatchFresh(OkPattern("Listing"), reply)
    case None => DirOutcome(-ENOENT, [])
    case Some(b) =>
      match VarContent(b, "Listing")
      case Some(List(items)) =>
        var k := FirstNonList(items);
        FixedAgrees(items, k);
        if k == |items| then
          assert items[..k] == items;
          DirOutcome(0, [Dot, DotDot] + Names(items))
        else
          DirOutcome(-ENOENT, [Dot, DotDot] + Names(items[..k]))
      case _ => DirOutcome(-ENOENT, [])
  }

  lemma FixedAgrees(items: seq<Term>, k: nat)
    requires k <= |items|
    ensures DotCount([Dot, DotDot] + Names(items[..k])) == 1
    ensures WithoutDots(Triples(items[..k])) == Names(items[..k])
    ensures WithoutDots(Triples(items[..k]) + [Dot, DotDot]) == Names(items[..k])
  {
    var ns := Names(items[..k]);
    WithoutDotsTriples(items[..k]);
    WithoutDotsAppend(Triples(items[..k]), [Dot, DotDot]);
    assert multiset(ns)[Dot] == 0 by {
      assert Dot !in ns;
    }
    assert multiset([Dot, DotDot] + ns) == multiset([Dot, DotDot]) + multiset(ns);
  }

  /** readdir with "." and ".." filled once before the walk instead of once per element. */
  method ReadDirFixed(reply: Term) returns (res: int, entries: seq<DirEntry>)
    ensures DirOutcome(res, entries) == ReadDirFixedReply(reply)
  {
    res := 0;
    entries := [];
    MatchOk("Listing", reply);
    var m := MatchFresh(OkPattern("Listing"), reply);
    if m.Some? {
      var listing := VarContent(m.value, "Listing");
      if listing.Some? && listing.value.List? {
        ghost var items := listing.value.items;
        ghost var i := 0;
        var tail := listing.value.items;
        entries := [Dot, DotDot];
        while tail != []
          invariant 0 <= i <= |items| && tail == items[i..]
          invariant forall j :: 0 <= j < i ==> items[j].List?
          invariant entries == [Dot, DotDot] + Names(items[..i])
          invariant res == 0
        {
          var elem := tail[0];
          if elem.List? {
            entries := entries + [Name(elem)];
          } else {
            res := -ENOENT;
            break;
          }
          tail := tail[1..];
          i := i + 1;
        }
        if res == 0 {
          assert items[..i] == items;
        } else {
          assert FirstNonList(items) == i;
        }
      } else {
        res := -ENOENT;
      }
    } else {
      res := -ENOENT;
    }
  }

  // ---------------------------------------------------------------------------
  // open

  /** How open classifies a reply. */
  datatype OpenOutcome = Opened(fd: Term) | Denied | NotFound

  /**
   * `{ok,Fd}` with a pid opens, keeping the pid as the handle; `{ok,_}` with
   * anything else is not found; `{error,access}` is denied; anything else is
   * not found.
   */
  function OpenReply(reply: Term): (r: OpenOutcome)
    ensures r.Opened? <==> IsOkReply(reply) && reply.elems[1].Pid?
    ensures r.Opened? ==> r.fd == reply.elems[1]
    ensures r.Denied? <==> reply == Tuple([Atom("error"), Atom("access")])
  {
    MatchOk("Fd", reply);
    MatchAccess(reply);
    match MatchFresh(OkPattern("Fd"), reply)
    case Some(b) =>
      (match VarContent(b, "Fd")
       case Some(Pid(id)) => Opened(Pid(id))
       case _ => NotFound)
    case None =>
      if MatchFresh(AccessPattern, reply).Some? then Denied else NotFound
  }

  /** The value open returns to the kernel bridge. */
  function OpenResult(o: OpenOutcome): (res: int)
    ensures res == 0 <==> o.Opened?
    ensures res == -EACCES <==> o.Denied?
    ensures res == -ENOENT <==> o.NotFound?
  {
    match o
    case Opened(_) => 0
    case Denied => -EACCES
    case NotFound => -ENOENT
  }

  /** The per-open-file record the kernel bridge passes in (struct fuse_file_info). */
  class FileInfo {
    var flags: int32
    /** The handle slot: None until an open stores a handle in it. */
    var fh: Option<Term>

    constructor (flags: int32)
      ensures this.flags == flags && fh == None
    {
      this.flags := flags;
      fh := None;
    }
  }

  /** hello_open: store the backend's pid as the file handle, or return an errno and leave the slot alone. */
  method Open(reply: Term, fi: FileInfo) returns (res: int)
    modifies fi
    ensures res == OpenResult(OpenReply(reply))
    ensures fi.fh == if OpenReply(reply).Opened? then Some(OpenReply(reply).fd) else old(fi.fh)
    ensures fi.flags == old(fi.flags)
  {
    res := 0;
    MatchOk("Fd", reply);
    MatchAccess(reply);
    var m := MatchFresh(OkPattern("Fd"), reply);
    if m.Some? {
      var fd := VarContent(m.value, "Fd");
      if fd.Some? && fd.value.Pid? {
        fi.fh := Some(fd.value);
      } else {
        res := -ENOENT;
      }
    } else if MatchFresh(AccessPattern, reply).Some? {
      res := -EACCES;
    } else {
      res := -ENOENT;
    }
  }

  /** A denied open and a failed open are told apart only by `{error,access}`; every other failure is -ENOENT. */
  lemma OpenErrors(reply: Term)
    ensures OpenResult(OpenReply(reply)) == -EACCES <==> reply == Tuple([Atom("error"), Atom("access")])
    ensures OpenResult(OpenReply(reply)) == -ENOENT <==>
      reply != Tuple([Atom("error"), Atom("access")]) && !(IsOkReply(reply) && reply.elems[1].Pid?)
  {
  }

  // ---------------------------------------------------------------------------
  // read

  /** The binary of a `{ok,Data}` reply whose Data is a binary; None for any other reply. */
  function ReadReply(reply: Term): (r: Option<seq<byte>>)
    ensures r.Some? <==> IsOkReply(reply) && reply.elems[1].Binary?
    ensures r.Some? ==> r.value == reply.elems[1].bytes
  {
    MatchOk("Data", reply);
    match MatchFresh(OkPattern("Data"), reply)
    case Some(b) =>
      (match VarContent(b, "Data")
       case Some(Binary(data)) => Some(data)
       case _ => None)
    case None => None
  }

  /**
   * The bytes `memcpy(buf, data, size)` reads, as written: the first `size`
   * bytes of the binary, or None when `size` runs past the binary's end and
   * the copy reads memory that is not part of it.
   */
  function MemcpyAsWritten(data: seq<byte>, size: nat): (r: Option<seq<byte>>)
    ensures r.Some? <==> size <= |data|
    ensures r.Some? ==> |r.value| == size && data == r.value + data[size..]
  {
    if size <= |data| then Some(data[..size]) else None
  }

  /**
   * The bytes the corrected read copies: as many of the binary's bytes as
   * fit in `size`. Wherever the source's copy stays inside the binary, it is
   * the same copy.
   */
  function CopiedBytes(data: seq<byte>, size: nat): (r: seq<byte>)
    ensures |r| <= size && |r| <= |data|
    ensures |r| == size || |r| == |data|
    ensures data == r + data[|r|..]
    ensures MemcpyAsWritten(data, size).Some? ==> r == MemcpyAsWritten(data, size).value
  {
    if size <= |data| then data[..size] else data
  }

  /** A reply `{ok,<<>>}` read with size 1: the source's memcpy reads one byte past the empty binary. */
  lemma ReadOverRead()
    ensures ReadReply(Tuple([Atom("ok"), Binary([])])) == Some([])
    ensures MemcpyAsWritten([], 1).None?
    ensures CopiedBytes([], 1) == []
  {
  }

  /**
   * hello_read: for `{ok,Binary}` copy the binary's bytes into `buf`, at most
   * `size` of them, and return the binary's length; for any other reply
   * return 0 and leave `buf` alone.
   */
  method Read(reply: Term, buf: array<byte>, size: nat) returns (n: int)
    requires size <= buf.Length
    modifies buf
    ensures n == if ReadReply(reply).Some? then |ReadReply(reply).value| else 0
    ensures ReadReply(reply).None? ==> buf[..] == old(buf[..])
    ensures ReadReply(reply).Some? ==>
      var copied := CopiedBytes(ReadReply(reply).value, size);
      buf[..] == copied + old(buf[..])[|copied|..]
  {
    n := 0;
    MatchOk("Data", reply);
    var m := MatchFresh(OkPattern("Data"), reply);
    if m.Some? {
      var data := VarContent(m.value, "Data");
      if data.Some? && data.value.Binary? {
        n := |data.value.bytes|;
        var copied := CopiedBytes(data.value.bytes, size);
        forall i | 0 <= i < |copied| {
          buf[i] := copied[i];
        }
      }
    }
  }
}
