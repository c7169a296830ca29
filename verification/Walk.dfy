/**
 * Path walking, as in `walk_unlocked` of src/filesystem/mod.rs: a stack machine over
 * the path and the targets of the links it meets, compared with a resolver that puts
 * each link target in front of the path that is left.
 */
module Walks {
  import opened Common

  const LINK_MAX: nat := 32
  const PATH_MAX: nat := 4096
  const NAME_MAX: nat := 255
  const SLASH: byte := 0x2F

  type Node = nat

  datatype Errno = ENOENT | ENOTDIR | ENAMETOOLONG | EMLINK | Other(code: nat)

  datatype Result<+T> = Ok(value: T) | Err(error: Errno)

  datatype Kind = Negative | Directory | Symlink(target: Result<seq<byte>>) | File

  /** What a walk asks of the filesystem. */
  datatype Fs = Fs(root: Result<Node>, kind: Node -> Kind, lookup: (Node, seq<byte>) -> Result<Node>)

  // ---------------------------------------------------------------- resolution

  /** The length of the first component of `s`. */
  function Component(s: seq<byte>): (n: nat)
    ensures n <= |s| && (n < |s| ==> s[n] == SLASH) && forall i | 0 <= i < n :: s[i] != SLASH
  {
    NextSlash(s, 0)
  }

  function NextSlash(s: seq<byte>, from: nat): (n: nat)
    requires from <= |s|
    ensures from <= n <= |s| && (n < |s| ==> s[n] == SLASH) && forall i | from <= i < n :: s[i] != SLASH
    decreases |s| - from
  {
    if from == |s| || s[from] == SLASH then from else NextSlash(s, from + 1)
  }

  /** `s` does not begin inside a component. */
  predicate AtBreak(s: seq<byte>) { s == [] || s[0] == SLASH }

  /** One move of a walk. */
  datatype Move =
    | Stop(error: Errno)
    | On(loc: Node, used: nat)
    | Follow(target: Result<seq<byte>>, used: nat)

  /** The move at `loc` for the non-empty text `s`; `more` says that `s` is not the end of the path. */
  function Look(fs: Fs, loc: Node, s: seq<byte>, more: bool, follow: bool): (m: Move)
    requires s != []
    ensures !m.Stop? ==> 0 < m.used <= |s|
    ensures m.Follow? ==> AtBreak(s[m.used..])
  {
    if s[0] == SLASH then
      match fs.kind(loc)
      case Negative => Stop(ENOENT)
      case Directory => On(loc, 1)
      case _ => Stop(ENOTDIR)
    else
      var n := Component(s);
      if n > NAME_MAX then Stop(ENAMETOOLONG)
      else
        match fs.lookup(loc, s[..n])
        case Err(e) => Stop(e)
        case Ok(next) =>
          var hasMore := n < |s| || more;
          match fs.kind(next)
          case Negative => if hasMore then Stop(ENOENT) else On(next, n)
          case Symlink(target) => if follow || hasMore then Follow(target, n) else On(loc, n)
          case _ => On(next, n)
  }

  /** Where a link's target is walked from. */
  function From(fs: Fs, loc: Node, target: seq<byte>): Result<Node>
    requires target != []
  {
    if target[0] == SLASH then fs.root else Ok(loc)
  }

  /**
   * The recursive resolver.  `tail` says that the end of `rest` is the end of a link's
   * target; `left` is how many links may still be followed.
   */
  function Resolve(fs: Fs, loc: Node, rest: seq<byte>, tail: bool, left: nat, follow: bool): Result<Node>
    decreases left, |rest|
  {
    if rest == [] then Ok(loc)
    else
      match Look(fs, loc, rest, tail, follow)
      case Stop(e) => Err(e)
      case On(next, n) => Resolve(fs, next, rest[n..], tail, left, follow)
      case Follow(target, n) =>
        if left == 0 then Err(EMLINK)
        else if target.Err? then Err(target.error)
        else if target.value == [] then Err(ENOENT)
        else
          match From(fs, loc, target.value)
          case Err(e) => Err(e)
          case Ok(start) => Resolve(fs, start, target.value + rest[n..], tail || n == |rest|, left - 1, follow)
  }

  /** Links being followed, innermost first, each with how many bytes are left after its target. */
  datatype Links = NoLink | Link(left: nat, outer: Links)

  /** The links still open when `n` bytes are left: those whose target has not been walked to its end. */
  function Open(links: Links, n: nat): Links {
    if links.Link? && links.left >= n then Open(links.outer, n) else links
  }

  function Count(links: Links): nat {
    if links.NoLink? then 0 else Count(links.outer) + 1
  }

  /** Whether the walk comes to follow a link when `LINK_MAX - 1` links are open. */
  predicate Overflows(fs: Fs, loc: Node, rest: seq<byte>, tail: bool, left: nat, follow: bool, links: Links)
    decreases left, |rest|
  {
    rest != [] &&
    match Look(fs, loc, rest, tail, follow)
    case Stop(_) => false
    case On(next, n) => Overflows(fs, next, rest[n..], tail, left, follow, Open(links, |rest|))
    case Follow(target, n) =>
      && left > 0
      && (Count(Open(links, |rest|)) + 1 >= LINK_MAX
          || (target.Ok? && target.value != [] && From(fs, loc, target.value).Ok?
              && Overflows(fs, From(fs, loc, target.value).value, target.value + rest[n..], tail || n == |rest|,
                           left - 1, follow, Link(|rest| - n, Open(links, |rest|)))))
  }

  /** Resolution of a whole path from `loc`. */
  function ResolvePath(fs: Fs, loc: Node, path: seq<byte>, follow: bool): Result<Node> {
    if |path| > PATH_MAX then Err(ENAMETOOLONG)
    else if path == [] then Err(ENOENT)
    else
      match From(fs, loc, path)
      case Err(e) => Err(e)
      case Ok(start) => Resolve(fs, start, path, false, LINK_MAX, follow)
  }

  predicate PathOverflows(fs: Fs, loc: Node, path: seq<byte>, follow: bool) {
    && 0 < |path| <= PATH_MAX && From(fs, loc, path).Ok?
    && Overflows(fs, From(fs, loc, path).value, path, false, LINK_MAX, follow, NoLink)
  }

  // ---------------------------------------------------------------- laws of resolution

  /** Allowing more links changes nothing but the failure for want of links. */
  lemma {:induction false} MoreLinks(fs: Fs, loc: Node, rest: seq<byte>, tail: bool, left: nat, follow: bool,
                                     extra: nat)
    ensures Resolve(fs, loc, rest, tail, left, follow) != Err(EMLINK) ==>
              Resolve(fs, loc, rest, tail, left + extra, follow) == Resolve(fs, loc, rest, tail, left, follow)
    decreases left, |rest|
  {
    if rest != [] {
      match Look(fs, loc, rest, tail, follow)
      case Stop(_) =>
      case On(next, n) => MoreLinks(fs, next, rest[n..], tail, left, follow, extra);
      case Follow(target, n) =>
        if left > 0 && target.Ok? && target.value != [] && From(fs, loc, target.value).Ok? {
          MoreLinks(fs, From(fs, loc, target.value).value, target.value + rest[n..], tail || n == |rest|,
                    left - 1, follow, extra);
        }
    }
  }

  /** A walk runs out of stack only if it needs its last link: with one link fewer it fails with EMLINK. */
  lemma {:induction false} OverflowNeedsAll(fs: Fs, loc: Node, rest: seq<byte>, tail: bool, left: nat,
                                            follow: bool, links: Links)
    requires left > 0 && Count(links) + left <= LINK_MAX
    ensures Overflows(fs, loc, rest, tail, left, follow, links) ==>
              Resolve(fs, loc, rest, tail, left - 1, follow) == Err(EMLINK)
    decreases left, |rest|
  {
    OpenCount(links, |rest|);
    if rest != [] {
      match Look(fs, loc, rest, tail, follow)
      case Stop(_) =>
      case On(next, n) => OverflowNeedsAll(fs, next, rest[n..], tail, left, follow, Open(links, |rest|));
      case Follow(target, n) =>
        if left > 1 && target.Ok? && target.value != [] && From(fs, loc, target.value).Ok? {
          OverflowNeedsAll(fs, From(fs, loc, target.value).value, target.value + rest[n..], tail || n == |rest|,
                           left - 1, follow, Link(|rest| - n, Open(links, |rest|)));
        }
    }
  }

  lemma {:induction false} OpenCount(links: Links, n: nat)
    ensures Count(Open(links, n)) <= Count(links)
  {
    if links.Link? {
      OpenCount(links.outer, n);
    }
  }

  /** Walking a path of which more follows: the place reached and the links still allowed. */
  function Go(fs: Fs, loc: Node, rest: seq<byte>, left: nat): Result<(Node, nat)>
    decreases left, |rest|
  {
    if rest == [] then Ok((loc, left))
    else
      match Look(fs, loc, rest, true, true)
      case Stop(e) => Err(e)
      case On(next, n) => Go(fs, next, rest[n..], left)
      case Follow(target, n) =>
        if left == 0 then Err(EMLINK)
        else if target.Err? then Err(target.error)
        else if target.value == [] then Err(ENOENT)
        else
          match From(fs, loc, target.value)
          case Err(e) => Err(e)
          case Ok(start) => Go(fs, start, target.value + rest[n..], left - 1)
  }

  /** Resolving a path is walking a first part of it, and then resolving the rest from there. */
  lemma {:induction false} ResolveConcat(fs: Fs, loc: Node, x: seq<byte>, y: seq<byte>, tail: bool, left: nat,
                                         follow: bool)
    requires y != [] && AtBreak(y)
    ensures Resolve(fs, loc, x + y, tail, left, follow)
         == match Go(fs, loc, x, left)
            case Err(e) => Err(e)
            case Ok((n, l)) => Resolve(fs, n, y, tail, l, follow)
    decreases left, |x|
  {
    if x == [] {
      assert x + y == y;
    } else {
      LookLocal(fs, loc, x, y, tail, true, follow);
      assert Look(fs, loc, x, true, follow) == Look(fs, loc, x, true, true);
      match Look(fs, loc, x, true, true)
      case Stop(_) =>
      case On(next, n) =>
        assert (x + y)[n..] == x[n..] + y;
        ResolveConcat(fs, next, x[n..], y, tail, left, follow);
      case Follow(target, n) =>
        if left > 0 && target.Ok? && target.value != [] && From(fs, loc, target.value).Ok? {
          assert target.value + (x + y)[n..] == (target.value + x[n..]) + y;
          ResolveConcat(fs, From(fs, loc, target.value).value, target.value + x[n..], y, tail, left - 1, follow);
        }
    }
  }

  /** A single component. */
  predicate Plain(c: seq<byte>) {
    0 < |c| <= NAME_MAX && forall i | 0 <= i < |c| :: c[i] != SLASH
  }

  lemma LookPlain(fs: Fs, loc: Node, c: seq<byte>, more: bool, follow: bool)
    requires Plain(c)
    ensures Component(c) == |c|
    ensures Look(fs, loc, c, more, follow)
         == match fs.lookup(loc, c)
            case Err(e) => Stop(e)
            case Ok(next) =>
              match fs.kind(next)
              case Negative => if more then Stop(ENOENT) else On(next, |c|)
              case Symlink(target) => if follow || more then Follow(target, |c|) else On(loc, |c|)
              case _ => On(next, |c|)
  {
    assert c[..|c|] == c;
  }

  /** Walking a path in two parts. */
  lemma {:induction false} GoConcat(fs: Fs, loc: Node, x: seq<byte>, y: seq<byte>, left: nat)
    requires y != [] && AtBreak(y)
    ensures Go(fs, loc, x + y, left)
         == match Go(fs, loc, x, left)
            case Err(e) => Err(e)
            case Ok((n, l)) => Go(fs, n, y, l)
    decreases left, |x|
  {
    if x == [] {
      assert x + y == y;
    } else {
      LookLocal(fs, loc, x, y, true, true, true);
      match Look(fs, loc, x, true, true)
      case Stop(_) =>
      case On(next, n) =>
        assert (x + y)[n..] == x[n..] + y;
        GoConcat(fs, next, x[n..], y, left);
      case Follow(target, n) =>
        if left > 0 && target.Ok? && target.value != [] && From(fs, loc, target.value).Ok? {
          assert target.value + (x + y)[n..] == (target.value + x[n..]) + y;
          GoConcat(fs, From(fs, loc, target.value).value, target.value + x[n..], y, left - 1);
        }
    }
  }

  /**
   * The entry `c` of directory `d`, when links are not to be followed.  An entry that is
   * not a link is itself returned; for a link, the directory that holds it is.
   */
  function Entry(fs: Fs, d: Node, c: seq<byte>): Result<Node> {
    if |c| > NAME_MAX then Err(ENAMETOOLONG)
    else
      match fs.lookup(d, c)
      case Err(e) => Err(e)
      case Ok(next) => if fs.kind(next).Symlink? then Ok(d) else Ok(next)
  }

  function EntryAfter(fs: Fs, place: Result<(Node, nat)>, c: seq<byte>): Result<Node> {
    if place.Err? then Err(place.error) else Entry(fs, place.value.0, c)
  }

  /** A name without a slash. */
  predicate Bare(c: seq<byte>) { c != [] && forall i | 0 <= i < |c| :: c[i] != SLASH }

  lemma BareIsEntry(fs: Fs, loc: Node, c: seq<byte>, left: nat)
    requires Bare(c)
    ensures Resolve(fs, loc, c, false, left, false) == Entry(fs, loc, c)
  {
    assert Component(c) == |c|;
    if |c| <= NAME_MAX {
      LookPlain(fs, loc, c, false, false);
      assert c[|c|..] == [];
    }
  }

  /** A last component after any path is its entry in the place that path leads to. */
  lemma LastNotFollowed(fs: Fs, loc: Node, x: seq<byte>, c: seq<byte>, left: nat)
    requires Bare(c) && (x == [] || x[|x| - 1] == SLASH)
    ensures Resolve(fs, loc, x + c, false, left, false)
         == EntryAfter(fs, Go(fs, loc, x, left), c)
  {
    if x == [] {
      assert x + c == c;
      BareIsEntry(fs, loc, c, left);
    } else {
      var front, s, y := x[..|x| - 1], [SLASH], [SLASH] + c;
      assert x == front + s && x + c == front + y;
      ResolveConcat(fs, loc, front, y, false, left, false);
      GoConcat(fs, loc, front, s, left);
      if Go(fs, loc, front, left).Ok? {
        AfterSlash(fs, Go(fs, loc, front, left).value.0, c, Go(fs, loc, front, left).value.1);
      }
    }
  }

  lemma AfterSlash(fs: Fs, d: Node, c: seq<byte>, left: nat)
    requires Bare(c)
    ensures Resolve(fs, d, [SLASH] + c, false, left, false)
         == EntryAfter(fs, Go(fs, d, [SLASH], left), c)
  {
    var s, y := [SLASH], [SLASH] + c;
    assert y[1..] == c && s[1..] == [];
    assert Look(fs, d, y, false, false) == Look(fs, d, s, true, true);
    BareIsEntry(fs, d, c, left);
  }

  /** So too for a whole path; a bare name, however long, is its entry in the starting directory. */
  lemma LastOfPath(fs: Fs, loc: Node, x: seq<byte>, c: seq<byte>)
    requires Bare(c) && (x == [] || x[|x| - 1] == SLASH)
    ensures x == [] ==> ResolvePath(fs, loc, c, false) == Entry(fs, loc, c)
    ensures x != [] ==>
              ResolvePath(fs, loc, x + c, false)
              == if |x| + |c| > PATH_MAX then Err(ENAMETOOLONG)
                 else if From(fs, loc, x).Err? then Err(From(fs, loc, x).error)
                 else EntryAfter(fs, Go(fs, From(fs, loc, x).value, x, LINK_MAX), c)
  {
    if x == [] {
      BareIsEntry(fs, loc, c, LINK_MAX);
    } else if From(fs, loc, x).Ok? {
      LastNotFollowed(fs, From(fs, loc, x).value, x, c, LINK_MAX);
    }
  }

  /** The link `l` in directory 0: without following it, the path `l` gives the directory and not the link. */
  lemma LinkNotFound()
    ensures var fs := Fs(Ok(0), n => if n == 1 then Symlink(Ok([SLASH])) else Directory, (d, c) => Ok(1));
            fs.lookup(0, [0x6C]) == Ok(1) && fs.kind(1).Symlink? && ResolvePath(fs, 0, [0x6C], false) == Ok(0)
  {
    var fs := Fs(Ok(0), n => if n == 1 then Symlink(Ok([SLASH])) else Directory, (d, c) => Ok(1));
    LastOfPath(fs, 0, [], [0x6C]);
  }

  /** A link to a missing name is an error, though the missing name itself is not. */
  lemma DanglingTarget(fs: Fs, loc: Node, c: seq<byte>, t: seq<byte>, next: Node, missing: Node)
    requires Plain(c) && Plain(t) && fs.lookup(loc, c) == Ok(next) && fs.kind(next) == Symlink(Ok(t))
    requires fs.lookup(loc, t) == Ok(missing) && fs.kind(missing) == Negative
    ensures ResolvePath(fs, loc, c, true) == Err(ENOENT)
    ensures ResolvePath(fs, loc, t, true) == Ok(missing)
  {
    LookPlain(fs, loc, c, false, true);
    LookPlain(fs, loc, t, true, true);
    LookPlain(fs, loc, t, false, true);
    assert t[|t|..] == [] && t + c[|c|..] == t;
    assert Resolve(fs, loc, t, false, LINK_MAX, true) == Ok(missing);
    assert Resolve(fs, loc, t, true, LINK_MAX - 1, true) == Err(ENOENT);
    assert Resolve(fs, loc, c, false, LINK_MAX, true) == Resolve(fs, loc, t, true, LINK_MAX - 1, true);
  }

  /** A link whose target is its own name: resolution runs out of links, the machine out of stack. */
  lemma SelfLink(fs: Fs, loc: Node, c: seq<byte>, next: Node)
    requires Plain(c) && fs.lookup(loc, c) == Ok(next) && fs.kind(next) == Symlink(Ok(c))
    ensures ResolvePath(fs, loc, c, true) == Err(EMLINK)
    ensures PathOverflows(fs, loc, c, true)
  {
    SelfLinkFrom(fs, loc, c, next, false, LINK_MAX, NoLink);
  }

  ghost predicate AllZero(links: Links) {
    links.Link? ==> links.left == 0 && AllZero(links.outer)
  }

  lemma {:induction false} SelfLinkFrom(fs: Fs, loc: Node, c: seq<byte>, next: Node, tail: bool, left: nat,
                                        links: Links)
    requires Plain(c) && fs.lookup(loc, c) == Ok(next) && fs.kind(next) == Symlink(Ok(c))
    requires AllZero(links) && Count(links) + left == LINK_MAX
    ensures Resolve(fs, loc, c, tail, left, true) == Err(EMLINK)
    ensures left > 0 ==> Overflows(fs, loc, c, tail, left, true, links)
    decreases left
  {
    LookPlain(fs, loc, c, tail, true);
    assert Open(links, |c|) == links;
    assert c + c[|c|..] == c;
    if left > 0 {
      SelfLinkFrom(fs, loc, c, next, true, left - 1, Link(0, links));
    }
  }

  // ---------------------------------------------------------------- the stack

  /** A name on the stack, and how far the walk has come in it. */
  datatype Name = Name(name: seq<byte>, offset: nat)

  type LinkEntry = e: Name | e.offset <= |e.name| witness Name([], 0)

  datatype Names = Base(top: LinkEntry) | Over(top: LinkEntry, below: Names)

  ghost function Rest(e: LinkEntry): seq<byte> { e.name[e.offset..] }

  function Depth(names: Names): nat {
    if names.Base? then 0 else Depth(names.below) + 1
  }

  ghost function Bottom(names: Names): LinkEntry {
    if names.Base? then names.top else Bottom(names.below)
  }

  /** The bytes left on a stack, top first. */
  ghost function Flat(names: Names): seq<byte> {
    Rest(names.top) + if names.Base? then [] else Flat(names.below)
  }

  /** The links a stack is following. */
  ghost function LinksOf(names: Names): (r: Links)
    ensures Count(r) == Depth(names)
  {
    if names.Base? then NoLink else Link(|Flat(names.below)|, LinksOf(names.below))
  }

  /** Every name was left at the end of a component. */
  ghost predicate Suspended(names: Names) {
    AtBreak(Rest(names.top)) && (names.Over? ==> Suspended(names.below))
  }

  lemma {:induction false} SuspendedFlat(names: Names)
    requires Suspended(names)
    ensures AtBreak(Flat(names)) && (Flat(names) == [] ==> Rest(Bottom(names)) == [])
  {
    if names.Over? {
      SuspendedFlat(names.below);
    }
  }

  /** A move on the top of the stack is the move on all that is left. */
  lemma LookLocal(fs: Fs, loc: Node, s: seq<byte>, below: seq<byte>, tail: bool, more: bool, follow: bool)
    requires s != [] && AtBreak(below) && (more <==> below != [] || tail)
    ensures Look(fs, loc, s, more, follow) == Look(fs, loc, s + below, tail, follow)
  {
    if s[0] != SLASH {
      ComponentLocal(s, below);
      assert (s + below)[..Component(s)] == s[..Component(s)];
    }
  }

  lemma ComponentLocal(s: seq<byte>, below: seq<byte>)
    requires AtBreak(below)
    ensures Component(s + below) == Component(s)
  {
    var n, m := Component(s), Component(s + below);
    assert below != [] ==> (s + below)[|s|] == SLASH;
    assert n < |s| ==> (s + below)[n] == SLASH;
    assert m < |s| ==> s[m] == SLASH;
    assert forall i | 0 <= i < n :: (s + below)[i] == s[i];
  }

  /** What ties the stack to the resolver's arguments. */
  ghost predicate Tied(names: Names, tail: bool, links: Links) {
    && links == LinksOf(names) && (names.Over? ==> Suspended(names.below))
    && if names.Over? then tail <==> Rest(Bottom(names)) == [] else tail ==> Rest(names.top) == []
  }

  /** With text left in the top name, every link on the stack is open, and the top decides the move. */
  lemma TiedTop(fs: Fs, loc: Node, names: Names, tail: bool, links: Links, follow: bool)
    requires Tied(names, tail, links) && Rest(names.top) != []
    ensures Open(links, |Flat(names)|) == links
    ensures Look(fs, loc, Rest(names.top), names.Over?, follow) == Look(fs, loc, Flat(names), tail, follow)
  {
    if names.Over? {
      SuspendedFlat(names.below);
      LookLocal(fs, loc, Rest(names.top), Flat(names.below), tail, true, follow);
    } else {
      LookLocal(fs, loc, Rest(names.top), [], tail, false, follow);
    }
  }

  ghost function Advanced(names: Names, n: nat): Names
    requires n <= |Rest(names.top)|
  {
    names.(top := names.top.(offset := names.top.offset + n))
  }

  /** Moving on in the top name drops bytes from the front of what is left. */
  lemma TiedAdvance(names: Names, tail: bool, links: Links, n: nat)
    requires Tied(names, tail, links) && 0 < n <= |Rest(names.top)|
    ensures Tied(Advanced(names, n), tail, links)
    ensures n <= |Flat(names)| && Flat(Advanced(names, n)) == Flat(names)[n..]
  {
    assert Rest(Advanced(names, n).top) == Rest(names.top)[n..];
  }

  /** Following a link puts its target in front of what is left. */
  lemma TiedFollow(names: Names, tail: bool, links: Links, n: nat, target: seq<byte>)
    requires Tied(names, tail, links) && 0 < n <= |Rest(names.top)| && AtBreak(Rest(names.top)[n..])
    ensures var after := Over(Name(target, 0), Advanced(names, n));
            && n <= |Flat(names)| && Flat(after) == target + Flat(names)[n..]
            && Tied(after, tail || n == |Flat(names)|, Link(|Flat(names)| - n, links))
  {
    var moved := Advanced(names, n);
    TiedAdvance(names, tail, links, n);
    assert Rest(moved.top) == Rest(names.top)[n..];
    SuspendedFlat(moved);
    assert Rest(Bottom(moved)) == [] <==> tail || Flat(moved) == [];
  }

  // ---------------------------------------------------------------- the machine

  /** A walk can index its stack out of bounds. */
  datatype Outcome = Done(result: Result<Node>) | Panicked

  /** How a walk from this point ends. */
  ghost function Ending(fs: Fs, loc: Node, rest: seq<byte>, tail: bool, left: nat, follow: bool,
                        links: Links): Outcome {
    if Overflows(fs, loc, rest, tail, left, follow, links) then Panicked
    else Done(Resolve(fs, loc, rest, tail, left, follow))
  }

  lemma EndingClosed(fs: Fs, loc: Node, rest: seq<byte>, tail: bool, left: nat, follow: bool, links: Links)
    requires links.Link? && links.left >= |rest|
    ensures Ending(fs, loc, rest, tail, left, follow, links) == Ending(fs, loc, rest, tail, left, follow, links.outer)
  {
    assert Open(links, |rest|) == Open(links.outer, |rest|);
  }

  lemma EndingPop(fs: Fs, loc: Node, names: Names, tail: bool, left: nat, follow: bool, links: Links)
    requires Tied(names, tail, links) && names.Over? && Rest(names.top) == []
    ensures links.Link? && Tied(names.below, tail, links.outer) && Flat(names.below) == Flat(names)
    ensures Ending(fs, loc, Flat(names.below), tail, left, follow, links.outer)
         == Ending(fs, loc, Flat(names), tail, left, follow, links)
  {
    assert Flat(names.below) == Flat(names);
    assert Bottom(names) == Bottom(names.below);
    assert names.below.Base? ==> Bottom(names.below) == names.below.top;
    EndingClosed(fs, loc, Flat(names), tail, left, follow, links);
  }

  lemma EndingStop(fs: Fs, loc: Node, names: Names, tail: bool, left: nat, follow: bool, links: Links)
    requires Tied(names, tail, links) && Rest(names.top) != []
    requires Look(fs, loc, Rest(names.top), names.Over?, follow).Stop?
    ensures Ending(fs, loc, Flat(names), tail, left, follow, links)
         == Done(Err(Look(fs, loc, Rest(names.top), names.Over?, follow).error))
  {
    TiedTop(fs, loc, names, tail, links, follow);
  }

  lemma EndingOn(fs: Fs, loc: Node, names: Names, tail: bool, left: nat, follow: bool, links: Links,
                 next: Node, n: nat)
    requires Tied(names, tail, links) && Rest(names.top) != []
    requires Look(fs, loc, Rest(names.top), names.Over?, follow) == On(next, n)
    ensures Tied(Advanced(names, n), tail, links) && |Flat(Advanced(names, n))| < |Flat(names)|
    ensures Ending(fs, loc, Flat(names), tail, left, follow, links)
         == Ending(fs, next, Flat(Advanced(names, n)), tail, left, follow, links)
  {
    TiedTop(fs, loc, names, tail, links, follow);
    TiedAdvance(names, tail, links, n);
  }

  lemma EndingFail(fs: Fs, loc: Node, names: Names, tail: bool, left: nat, follow: bool, links: Links)
    requires Tied(names, tail, links) && Rest(names.top) != []
    requires Look(fs, loc, Rest(names.top), names.Over?, follow).Follow?
    ensures var target := Look(fs, loc, Rest(names.top), names.Over?, follow).target;
            var ending := Ending(fs, loc, Flat(names), tail, left, follow, links);
            if left == 0 then ending == Done(Err(EMLINK))
            else if Depth(names) + 1 >= LINK_MAX then ending == Panicked
            else if target.Err? then ending == Done(Err(target.error))
            else if target.value == [] then ending == Done(Err(ENOENT))
            else From(fs, loc, target.value).Err? ==> ending == Done(Err(From(fs, loc, target.value).error))
  {
    TiedTop(fs, loc, names, tail, links, follow);
  }

  lemma EndingSplice(fs: Fs, loc: Node, rest: seq<byte>, tail: bool, left: nat, follow: bool, links: Links,
                     target: seq<byte>, n: nat)
    requires rest != [] && Look(fs, loc, rest, tail, follow) == Follow(Ok(target), n) && Open(links, |rest|) == links
    requires left > 0 && Count(links) + 1 < LINK_MAX && target != [] && From(fs, loc, target).Ok?
    ensures Ending(fs, loc, rest, tail, left, follow, links)
         == Ending(fs, From(fs, loc, target).value, target + rest[n..], tail || n == |rest|,
                   left - 1, follow, Link(|rest| - n, links))
  {
  }

  lemma EndingFollow(fs: Fs, loc: Node, names: Names, tail: bool, left: nat, follow: bool, links: Links,
                     target: seq<byte>, n: nat)
    requires Tied(names, tail, links) && Rest(names.top) != []
    requires Look(fs, loc, Rest(names.top), names.Over?, follow) == Follow(Ok(target), n)
    requires left > 0 && Depth(names) + 1 < LINK_MAX && target != [] && From(fs, loc, target).Ok?
    ensures n <= |Flat(names)|
    ensures Ending(fs, loc, Flat(names), tail, left, follow, links)
         == Ending(fs, From(fs, loc, target).value, target + Flat(names)[n..], tail || n == |Flat(names)|,
                   left - 1, follow, Link(|Flat(names)| - n, links))
  {
    TiedTop(fs, loc, names, tail, links, follow);
    EndingSplice(fs, loc, Flat(names), tail, left, follow, links, target, n);
  }

  lemma EndingDescend(fs: Fs, loc: Node, names: Names, tail: bool, left: nat, follow: bool, links: Links,
                      target: seq<byte>, n: nat)
    requires Tied(names, tail, links) && Rest(names.top) != []
    requires Look(fs, loc, Rest(names.top), names.Over?, follow) == Follow(Ok(target), n)
    requires left > 0 && Depth(names) + 1 < LINK_MAX && target != [] && From(fs, loc, target).Ok?
    ensures n <= |Flat(names)|
    ensures var after := Over(Name(target, 0), Advanced(names, n));
            var tail', links' := tail || n == |Flat(names)|, Link(|Flat(names)| - n, links);
            && Tied(after, tail', links')
            && Ending(fs, loc, Flat(names), tail, left, follow, links)
            == Ending(fs, From(fs, loc, target).value, Flat(after), tail', left - 1, follow, links')
  {
    EndingFollow(fs, loc, names, tail, left, follow, links, target, n);
    TiedFollow(names, tail, links, n, target);
  }

  lemma EndingDone(fs: Fs, loc: Node, names: Names, tail: bool, left: nat, follow: bool, links: Links)
    requires Tied(names, tail, links) && names.Base? && Rest(names.top) == []
    ensures Ending(fs, loc, Flat(names), tail, left, follow, links) == Done(Ok(loc))
  {
  }

  /** How a walk ends whose stack and links fit together. */
  ghost function Prospect(fs: Fs, follow: bool, loc: Node, names: Names, tail: bool, passed: nat,
                          links: Links): Option<Outcome> {
    if passed <= LINK_MAX && Tied(names, tail, links)
    then Some(Ending(fs, loc, Flat(names), tail, LINK_MAX - passed, follow, links)) else None
  }

  lemma ProspectPop(fs: Fs, follow: bool, loc: Node, names: Names, tail: bool, passed: nat, links: Links)
    requires Prospect(fs, follow, loc, names, tail, passed, links).Some? && names.Over? && Rest(names.top) == []
    ensures links.Link? && Flat(names.below) == Flat(names)
    ensures Prospect(fs, follow, loc, names.below, tail, passed, links.outer)
         == Prospect(fs, follow, loc, names, tail, passed, links)
  {
    var left := LINK_MAX - passed;
    EndingPop(fs, loc, names, tail, left, follow, links);
    assert Prospect(fs, follow, loc, names, tail, passed, links)
        == Some(Ending(fs, loc, Flat(names), tail, left, follow, links));
    assert Prospect(fs, follow, loc, names.below, tail, passed, links.outer)
        == Some(Ending(fs, loc, Flat(names.below), tail, left, follow, links.outer));
  }

  lemma ProspectOn(fs: Fs, follow: bool, loc: Node, names: Names, tail: bool, passed: nat, links: Links,
                   next: Node, n: nat)
    requires Prospect(fs, follow, loc, names, tail, passed, links).Some? && Rest(names.top) != []
    requires Look(fs, loc, Rest(names.top), names.Over?, follow) == On(next, n)
    ensures |Flat(Advanced(names, n))| < |Flat(names)|
    ensures Prospect(fs, follow, next, Advanced(names, n), tail, passed, links)
         == Prospect(fs, follow, loc, names, tail, passed, links)
  {
    EndingOn(fs, loc, names, tail, LINK_MAX - passed, follow, links, next, n);
  }

  lemma ProspectDescend(fs: Fs, follow: bool, loc: Node, names: Names, tail: bool, passed: nat, links: Links,
                        target: seq<byte>, n: nat, start: Node, after: Names, last: bool, deeper: Links)
    requires Prospect(fs, follow, loc, names, tail, passed, links).Some? && Rest(names.top) != []
    requires Look(fs, loc, Rest(names.top), names.Over?, follow) == Follow(Ok(target), n) && n <= |Flat(names)|
    requires passed < LINK_MAX && Depth(names) + 1 < LINK_MAX && target != [] && From(fs, loc, target) == Ok(start)
    requires after == Over(Name(target, 0), Advanced(names, n))
    requires last == (tail || n == |Flat(names)|) && deeper == Link(|Flat(names)| - n, links)
    ensures Prospect(fs, follow, start, after, last, passed + 1, deeper)
         == Prospect(fs, follow, loc, names, tail, passed, links)
  {
    EndingDescend(fs, loc, names, tail, LINK_MAX - passed, follow, links, target, n);
  }

  /** The lowest names of an array. */
  ghost function NamesOf(slots: seq<LinkEntry>, depth: nat): (r: Names)
    requires depth < |slots|
    ensures Depth(r) == depth && r.top == slots[depth] && (r.Over? <==> depth > 0)
  {
    if depth == 0 then Base(slots[0]) else Over(slots[depth], NamesOf(slots, depth - 1))
  }

  lemma {:induction false} NamesOfLow(s: seq<LinkEntry>, t: seq<LinkEntry>, depth: nat)
    requires depth < |s| && depth < |t| && forall i | 0 <= i <= depth :: s[i] == t[i]
    ensures NamesOf(s, depth) == NamesOf(t, depth)
  {
    if depth > 0 {
      NamesOfLow(s, t, depth - 1);
    }
  }

  /** The fixed array of names; those above `depth` are left over. */
  class LinkStack {
    const slots: array<LinkEntry>
    var depth: nat

    ghost predicate Valid()
      reads this
    {
      slots.Length == LINK_MAX && depth < LINK_MAX
    }

    ghost function Names(): (r: Names)
      requires Valid()
      reads this, slots
      ensures Depth(r) == depth && r.top == slots[depth] && (r.Over? <==> depth > 0)
    {
      NamesOf(slots[..], depth)
    }

    constructor (path: seq<byte>)
      ensures Valid() && Names() == Base(Name(path, 0)) && fresh(slots)
    {
      slots := new LinkEntry[LINK_MAX](_ => Name([], 0));
      depth := 0;
      new;
      slots[0] := Name(path, 0);
    }

    method Pop()
      requires Valid() && depth > 0
      modifies this
      ensures Valid() && depth == old(depth) - 1 && Names() == old(Names()).below
    {
      depth := depth - 1;
    }

    method Advance(n: nat)
      requires Valid() && n <= |Rest(slots[depth])|
      modifies slots
      ensures Names() == Advanced(old(Names()), n)
    {
      ghost var before := slots[..];
      slots[depth] := slots[depth].(offset := slots[depth].offset + n);
      if depth > 0 {
        NamesOfLow(before, slots[..], depth - 1);
      }
    }

    method Push(target: seq<byte>)
      requires Valid() && depth + 1 < LINK_MAX
      modifies this, slots
      ensures Valid() && depth == old(depth) + 1 && Names() == Over(Name(target, 0), old(Names()))
    {
      ghost var before := slots[..];
      depth := depth + 1;
      slots[depth] := Name(target, 0);
      NamesOfLow(before, slots[..], depth - 1);
    }
  }

  method ComponentLen(name: seq<byte>, offset: nat) returns (n: nat)
    requires offset <= |name|
    ensures n == Component(name[offset..])
  {
    n := 0;
    while offset + n < |name| && name[offset + n] != SLASH
      invariant offset + n <= |name| && forall i | 0 <= i < n :: name[offset..][i] != SLASH
    {
      assert name[offset..][n] == name[offset + n];
      n := n + 1;
    }
    assert offset + n < |name| ==> name[offset..][n] == SLASH;
  }

  /** The state of a walk: what is left of the names, the place reached, and the links followed. */
  class Walker {
    const fs: Fs
    const follow: bool
    const stack: LinkStack
    var loc: Node
    var passed: nat
    /** How the walk will end. */
    ghost const end: Outcome
    ghost var tail: bool
    ghost var links: Links

    ghost predicate Valid()
      reads this, stack, stack.slots
    {
      stack.Valid() && Prospect(fs, follow, loc, stack.Names(), tail, passed, links) == Some(end)
    }

    ghost function Left(): nat
      requires Valid()
      reads this, stack, stack.slots
    {
      |Flat(stack.Names())|
    }

    ghost predicate Ready()
      reads this, stack, stack.slots
    {
      Valid() && Rest(stack.Names().top) != []
    }

    ghost function NextMove(): Move
      requires Ready()
      reads this, stack, stack.slots
    {
      Look(fs, loc, Rest(stack.Names().top), stack.depth > 0, follow)
    }

    constructor (fs: Fs, loc: Node, path: seq<byte>, follow: bool)
      ensures Valid() && this.fs == fs && this.follow == follow && fresh(stack) && fresh(stack.slots)
      ensures end == Ending(fs, loc, path, false, LINK_MAX, follow, NoLink)
    {
      this.fs, this.loc, this.follow, passed := fs, loc, follow, 0;
      end := Ending(fs, loc, path, false, LINK_MAX, follow, NoLink);
      stack := new LinkStack(path);
      tail, links := false, NoLink;
      new;
      assert Flat(stack.Names()) == path;
    }

    /** Leave the name at the top, which is used up. */
    method Leave()
      requires Valid() && stack.depth > 0 && Rest(stack.Names().top) == []
      modifies this`links, stack
      ensures Valid() && Left() == old(Left()) && stack.depth == old(stack.depth) - 1
    {
      ProspectPop(fs, follow, loc, stack.Names(), tail, passed, links);
      stack.Pop();
      links := links.outer;
    }

    /** Make the move to `next`, past `n` bytes. */
    method MoveOn(next: Node, n: nat)
      requires Ready() && NextMove() == On(next, n)
      modifies this`loc, stack.slots
      ensures Valid() && Left() < old(Left())
    {
      ProspectOn(fs, follow, loc, stack.Names(), tail, passed, links, next, n);
      stack.Advance(n);
      loc := next;
    }

    /** Why a link cannot be followed, if it cannot. */
    method LinkFailure(target: Result<seq<byte>>) returns (r: Option<Outcome>)
      requires stack.Valid() && passed <= LINK_MAX
      ensures r == if passed == LINK_MAX then Some(Done(Err(EMLINK)))
                   else if stack.depth + 1 >= LINK_MAX then Some(Panicked)
                   else if target.Err? then Some(Done(Err(target.error)))
                   else if target.value == [] then Some(Done(Err(ENOENT)))
                   else if From(fs, loc, target.value).Err? then Some(Done(Err(From(fs, loc, target.value).error)))
                   else None
    {
      if passed >= LINK_MAX {
        return Some(Done(Err(EMLINK)));
      }
      if stack.depth + 1 >= LINK_MAX {
        return Some(Panicked);
      }
      if target.Err? {
        return Some(Done(Err(target.error)));
      } else if |target.value| == 0 {
        return Some(Done(Err(ENOENT)));
      } else if target.value[0] == SLASH && fs.root.Err? {
        return Some(Done(Err(fs.root.error)));
      }
      return None;
    }

    /** Put a link's target on the stack, past the `n` bytes of its name. */
    method Splice(target: seq<byte>, n: nat, ghost last: bool, ghost deeper: Links)
      requires stack.Valid() && stack.depth + 1 < LINK_MAX && n <= |Rest(stack.Names().top)|
      requires target != [] && From(fs, loc, target).Ok?
      modifies this, stack, stack.slots
      ensures stack.Valid() && stack.Names() == Over(Name(target, 0), Advanced(old(stack.Names()), n))
      ensures passed == old(passed) + 1 && loc == From(fs, old(loc), target).value && tail == last && links == deeper
    {
      tail, links := last, deeper;
      stack.Advance(n);
      stack.Push(target);
      passed := passed + 1;
      if target[0] == SLASH {
        loc := fs.root.value;
      }
    }

    /** Follow a link found in the `n` bytes at the top. */
    method Descend(target: seq<byte>, n: nat)
      requires Ready() && NextMove() == Follow(Ok(target), n)
      requires passed < LINK_MAX && stack.depth + 1 < LINK_MAX && target != [] && From(fs, loc, target).Ok?
      modifies this, stack, stack.slots
      ensures Valid() && passed == old(passed) + 1
    {
      ghost var names := stack.Names();
      ghost var start, after := From(fs, loc, target).value, Over(Name(target, 0), Advanced(names, n));
      ghost var last, deeper := tail || n == |Flat(names)|, Link(|Flat(names)| - n, links);
      ProspectDescend(fs, follow, loc, names, tail, passed, links, target, n, start, after, last, deeper);
      Splice(target, n, last, deeper);
    }

    /** Follow a link found in the `n` bytes at the top, unless that fails. */
    method FollowLink(target: Result<seq<byte>>, n: nat) returns (r: Option<Outcome>)
      requires Ready() && NextMove() == Follow(target, n)
      modifies this, stack, stack.slots
      ensures r.Some? ==> r.value == end
      ensures r.None? ==> Valid() && passed == old(passed) + 1
    {
      r := LinkFailure(target);
      if r.Some? {
        EndingFail(fs, loc, stack.Names(), tail, LINK_MAX - passed, follow, links);
      } else {
        Descend(target.value, n);
      }
    }

    /** Find the next move, with text left in the top name. */
    method Examine() returns (m: Move)
      requires Ready()
      ensures m == NextMove()
    {
      var name, offset := stack.slots[stack.depth].name, stack.slots[stack.depth].offset;
      if name[offset] == SLASH {
        match fs.kind(loc)
        case Negative => return Stop(ENOENT);
        case Directory => return On(loc, 1);
        case _ => return Stop(ENOTDIR);
      }
      var n := ComponentLen(name, offset);
      if n > NAME_MAX {
        return Stop(ENAMETOOLONG);
      }
      assert name[offset..offset + n] == name[offset..][..n];
      var found := fs.lookup(loc, name[offset..offset + n]);
      if found.Err? {
        return Stop(found.error);
      }
      var hasMorePath := stack.depth > 0 || offset + n < |name|;
      match fs.kind(found.value)
      case Negative => return if hasMorePath then Stop(ENOENT) else On(found.value, n);
      case Symlink(target) => return if follow || hasMorePath then Follow(target, n) else On(loc, n);
      case _ => return On(found.value, n);
    }

    /** One turn with text left in the top name. */
    method Turn() returns (r: Option<Outcome>)
      requires Ready()
      modifies this, stack, stack.slots
      ensures r.Some? ==> r.value == end
      ensures r.None? ==> Valid()
      ensures r.None? ==> passed == old(passed) + 1 || (passed == old(passed) && Left() < old(Left()))
    {
      var move := Examine();
      match move
      case Stop(e) =>
        EndingStop(fs, loc, stack.Names(), tail, LINK_MAX - passed, follow, links);
        r := Some(Done(Err(e)));
      case On(next, n) =>
        MoveOn(next, n);
        r := None;
      case Follow(target, n) =>
        r := FollowLink(target, n);
    }
  }

  /** The walk gives the resolver's result, unless it runs out of stack. */
  method Walk(fs: Fs, at: Node, path: seq<byte>, follow: bool) returns (r: Outcome)
    ensures r == if PathOverflows(fs, at, path, follow) then Panicked else Done(ResolvePath(fs, at, path, follow))
  {
    if |path| > PATH_MAX {
      return Done(Err(ENAMETOOLONG));
    }
    if |path| == 0 {
      return Done(Err(ENOENT));
    }
    if path[0] == SLASH && fs.root.Err? {
      return Done(Err(fs.root.error));
    }
    var w := new Walker(fs, if path[0] == SLASH then fs.root.value else at, path, follow);
    assert w.end == if PathOverflows(fs, at, path, follow) then Panicked else Done(ResolvePath(fs, at, path, follow));
    while true
      invariant w.fs == fs && w.follow == follow && w.Valid() && fresh(w) && fresh(w.stack) && fresh(w.stack.slots)
      decreases LINK_MAX - w.passed, w.Left(), w.stack.depth
    {
      if w.stack.slots[w.stack.depth].offset >= |w.stack.slots[w.stack.depth].name| {
        if w.stack.depth == 0 {
          EndingDone(fs, w.loc, w.stack.Names(), w.tail, LINK_MAX - w.passed, follow, w.links);
          return Done(Ok(w.loc));
        }
        w.Leave();
      } else {
        var turn := w.Turn();
        if turn.Some? {
          return turn.value;
        }
      }
    }
  }
}
