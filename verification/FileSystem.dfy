/** The part of a file system the receiver uses: a map from paths below the output directory to
    nodes. A link is never followed here: where the system would follow one, the operations say so. */
module FileSystem {
  import opened Basics
  import opened Paths
  import opened Sequences

  datatype Node = Directory | File(content: Bytes, mode: U64) | Symlink(target: Bytes)

  type Files = map<Path, Node>

  const DEFAULT_MODE: U64 := 420  // rw-r--r--

  const SIZE_LIMIT: nat := 0x8000_0000_0000_0000  // sizes and offsets in files are signed

  /** Is there a directory to hold `p`? The output directory itself always exists. */
  predicate HasParent(files: Files, p: Path)
    requires p != []
  {
    |p| == 1 || (Parent(p) in files && files[Parent(p)].Directory?)
  }

  /** create_directories, if there is no link on the way: every missing directory, and `p`. */
  function MakeDirectories(files: Files, p: Path): Option<Files>
    decreases |p|
  {
    if p == [] then Some(files)
    else
      match MakeDirectories(files, Parent(p))
      case None => None
      case Some(made) =>
        if p !in made then Some(made[p := Directory])
        else if made[p].Directory? then Some(made)
        else None
  }

  /** Opens for writing with truncation, if `p` is no link: creates the file or empties it. */
  function OpenTruncate(files: Files, p: Path): Option<Files>
    requires p != []
  {
    if !HasParent(files, p) then None
    else if p !in files then Some(files[p := File([], DEFAULT_MODE)])
    else if files[p].File? then Some(files[p := File([], files[p].mode)])
    else None
  }

  function Zeros(n: nat): (z: Bytes)
    ensures |z| == n && forall i | 0 <= i < n :: z[i] == 0
  {
    seq(n, i => 0)
  }

  /** resize_file: cuts, or extends with zeros. */
  function Resize(content: Bytes, size: nat): Bytes {
    if size <= |content| then content[..size] else content + Zeros(size - |content|)
  }

  /** Writes `data` at `offset`; a gap before it reads as zeros. */
  function WriteAt(content: Bytes, offset: nat, data: Bytes): Bytes {
    var wide := if |content| < offset + |data| then Resize(content, offset + |data|) else content;
    wide[..offset] + data + wide[offset + |data|..]
  }

  predicate HasChild(files: Files, p: Path) {
    exists q | q in files :: |q| == |p| + 1 && q[..|p|] == p
  }

  /** remove, ignoring errors: a directory that is not empty stays. */
  function Remove(files: Files, p: Path): Files {
    if p in files && !(files[p].Directory? && HasChild(files, p)) then files - {p} else files
  }

  /** create_symlink: the system reads the target up to a NUL, and refuses an empty one. */
  function MakeSymlink(files: Files, p: Path, target: Bytes): Option<Files>
    requires p != []
  {
    if !HasParent(files, p) || p in files || BeforeNul(target) == [] then None
    else Some(files[p := Symlink(BeforeNul(target))])
  }

  const FALLBACK_SUFFIX: Bytes :=
    [46, 104, 121, 112, 101, 114, 108, 105, 110, 107, 45, 115, 121, 109, 108, 105, 110, 107, 46, 116, 120, 116]
    // ".hyperlink-symlink.txt"

  function FallbackPath(p: Path): (q: Path)
    requires p != []
    ensures q != []
  {
    Parent(p) + [p[|p| - 1] + FALLBACK_SUFFIX]
  }

  // ----- Where a path leads when the system follows links -----

  /** Where the system ends up: at a path below the output directory, at a link it would follow to
      wherever that points, or above the output directory. */
  datatype Lead = Arrives(path: Path) | ThroughLink(link: Path) | Above

  /** Follows the components `d` from the directory `at`. A link on the way is followed always, one at
      the end only if `last` says so. */
  function Follow(files: Files, at: Path, d: Path, last: bool): Lead
    decreases |d|
  {
    if d == [] then Arrives(at)
    else if d[0] == [] || d[0] == [DOT] then Follow(files, at, d[1..], last)
    else if d[0] == [DOT, DOT] then if at == [] then Above else Follow(files, Parent(at), d[1..], last)
    else
      var next := at + [d[0]];
      if next in files && files[next].Symlink? && (|d| > 1 || last) then ThroughLink(next)
      else Follow(files, next, d[1..], last)
  }

  /** Where the system gets with a checked path. */
  function Reach(files: Files, p: Path, last: bool): Lead {
    Follow(files, [], OnDisk(p), last)
  }

  // ----- The receiver's operations on checked paths -----

  datatype Answer = Done | Fails | Leaves(link: Path)

  /** An operation: how it ends, and the files after it. Where the system would follow a link, the
      model does not say what happens there. */
  datatype Attempt = Attempt(answer: Answer, files: Files)

  function Tried(files: Files, result: Option<Files>): Attempt {
    match result
    case None => Attempt(Fails, files)
    case Some(files') => Attempt(Done, files')
  }

  /** create_directories; above the output directory everything exists. */
  function CreateDirectories(files: Files, p: Path): Attempt {
    match Reach(files, p, true)
    case ThroughLink(link) => Attempt(Leaves(link), files)
    case Above => Attempt(Done, files)
    case Arrives(_) => Tried(files, MakeDirectories(files, Folder(p)))
  }

  /** Opens a path for writing with truncation. */
  function CreateFile(files: Files, p: Path): (a: Attempt)
    requires p != []
    ensures a.answer.Done? ==> Locate(p).Some? && Locate(p).value in a.files && a.files[Locate(p).value].File?
  {
    match Reach(files, p, true)
    case ThroughLink(link) => Attempt(Leaves(link), files)
    case Above => Attempt(Fails, files)
    case Arrives(_) =>
      match Locate(p)
      case None => Attempt(Fails, files)
      case Some(q) => Tried(files, OpenTruncate(files, q))
  }

  predicate IsFile(files: Files, path: Option<Path>) {
    path.Some? && path.value in files && files[path.value].File?
  }

  /** Opens an existing file. */
  function OpenExisting(files: Files, p: Path): Answer
    requires p != []
  {
    match Reach(files, p, true)
    case ThroughLink(link) => Leaves(link)
    case Above => Fails
    case Arrives(_) => if IsFile(files, Locate(p)) then Done else Fails
  }

  /** Replaces whatever file, link or empty directory is at the path by a symbolic link or, where that
      fails, writes the target into a text file beside it. */
  function LinkOrFallback(files: Files, p: Path, target: Bytes): Attempt
    requires p != []
  {
    match Reach(files, p, false)
    case ThroughLink(link) => Attempt(Leaves(link), files)
    case Above => Attempt(Fails, files)
    case Arrives(_) =>
      match Locate(p)
      case None => Attempt(Fails, files)
      case Some(q) =>
        var cleared := Remove(files, q);
        match MakeSymlink(cleared, q, target)
        case Some(linked) => Attempt(Done, linked)
        case None => WriteFallback(cleared, FallbackPath(p), target)
  }

  function WriteFallback(files: Files, p: Path, text: Bytes): Attempt
    requires p != []
  {
    var created := CreateFile(files, p);
    if !created.answer.Done? then created
    else
      var q := Locate(p).value;
      Attempt(Done, created.files[q := File(text, created.files[q].mode)])
  }

  /** Replaces the mode; other failures are ignored. */
  function ReplaceMode(files: Files, p: Path, mode: U64): Attempt
    requires p != []
  {
    match Reach(files, p, true)
    case ThroughLink(link) => Attempt(Leaves(link), files)
    case Above => Attempt(Done, files)
    case Arrives(_) =>
      var q := Locate(p);
      Attempt(Done, if IsFile(files, q) then files[q.value := File(files[q.value].content, mode)] else files)
  }

  // ----- When a path stays inside -----

  /** The first `k` components of `d` lead from `at` to a link. */
  predicate LinkAt(files: Files, at: Path, d: Path, k: int) {
    0 < k <= |d| && at + d[..k] in files && files[at + d[..k]].Symlink?
  }

  /** Ordinary components are followed one by one to their end, unless one of them is a link that is
      followed: one on the way, or at the end if `last` or `rest` say so. */
  lemma {:induction false} FollowFront(files: Files, at: Path, front: Path, rest: Path, last: bool)
    requires forall part | part in front :: !Special(part)
    ensures var met := exists k :: LinkAt(files, at, front, k) && (k < |front| || rest != [] || last);
            && (met ==> Follow(files, at, front + rest, last).ThroughLink?)
            && (!met ==> Follow(files, at, front + rest, last) == Follow(files, at + front, rest, last))
    decreases |front|
  {
    if front == [] {
      assert front + rest == rest && at + front == at;
    } else {
      var next, tail := at + [front[0]], front[1..];
      assert front[0] in front && forall part | part in tail :: part in front;
      assert (front + rest)[1..] == tail + rest;
      assert next + tail == at + front;
      FollowFront(files, next, tail, rest, last);
      hide Follow;
      LinksShift(files, at, front);
      FollowStep(files, at, front + rest, last);
      assert at + front[..1] == next;
      if exists k :: LinkAt(files, next, tail, k) && (k < |tail| || rest != [] || last) {
        var k :| LinkAt(files, next, tail, k) && (k < |tail| || rest != [] || last);
        assert LinkAt(files, at, front, k + 1);
      }
      if exists k :: LinkAt(files, at, front, k) && (k < |front| || rest != [] || last) {
        var k :| LinkAt(files, at, front, k) && (k < |front| || rest != [] || last);
        assert k > 1 ==> LinkAt(files, next, tail, k - 1);
      }
    }
  }

  lemma {:induction false} FollowStep(files: Files, at: Path, d: Path, last: bool)
    requires d != [] && !Special(d[0])
    ensures var next := at + [d[0]];
            Follow(files, at, d, last) ==
            if next in files && files[next].Symlink? && (|d| > 1 || last) then ThroughLink(next)
            else Follow(files, next, d[1..], last)
  {
  }

  lemma {:induction false} LinksShift(files: Files, at: Path, front: Path)
    requires front != []
    ensures forall k | k > 0 ::
              LinkAt(files, at, front, k + 1) == LinkAt(files, at + [front[0]], front[1..], k)
    ensures LinkAt(files, at, front, 1) == (at + [front[0]] in files && files[at + [front[0]]].Symlink?)
  {
    assert front[..1] == [front[0]];
    forall k | 0 < k < |front|
      ensures at + front[..k + 1] == at + [front[0]] + front[1..][..k]
    {
    }
  }

  /** The system meets the link `q` with the checked path `p`: on the way, or at its end if `last`. */
  ghost predicate MeetsLink(files: Files, p: Path, last: bool, q: Path) {
    var d := OnDisk(p);
    q != [] && q <= d && !Special(q[|q| - 1]) && (|q| < |d| || last) && q in files && files[q].Symlink?
  }

  lemma {:induction false} MeetsIffLinkAt(files: Files, p: Path, last: bool, d: Path, front: Path)
    requires d == OnDisk(p) && front <= d && |d| <= |front| + 1
    requires (forall part | part in front :: !Special(part)) && (d != front ==> Special(d[|front|]))
    ensures (exists q :: MeetsLink(files, p, last, q)) <==>
            exists k :: LinkAt(files, [], front, k) && (k < |front| || d != front || last)
  {
    if q :| MeetsLink(files, p, last, q) {
      var k := |q|;
      assert q == [] + front[..k];
      assert LinkAt(files, [], front, k);
    }
    if k :| LinkAt(files, [], front, k) && (k < |front| || d != front || last) {
      var q := front[..k];
      assert q == [] + front[..k] && q[k - 1] in front;
      assert MeetsLink(files, p, last, q);
    }
  }

  /** Exactly when the system stays below the output directory with a checked path, whatever files,
      links and directories are there: if it meets no link and the path does not begin with ".." before
      a NUL. Then it gets where the components lead. */
  lemma {:induction false} StaysInsideIff(files: Files, p: Path, last: bool)
    requires forall part | part in p :: Ordinary(part)
    ensures Reach(files, p, last).Arrives? <==>
            !(exists q :: MeetsLink(files, p, last, q)) && !(p != [] && DotsAndNul(p[0]))
    ensures Reach(files, p, last).ThroughLink? <==> exists q :: MeetsLink(files, p, last, q)
    ensures Reach(files, p, last).Arrives? ==> Walk([], OnDisk(p)) == Some(Reach(files, p, last).path)
  {
    hide Follow, MeetsLink, OnDisk;
    var front, d := FrontOf(p);
    var rest := d[|front|..];
    assert d == front + rest && [] + front == front;
    FollowFront(files, [], front, rest, last);
    MeetsIffLinkAt(files, p, last, d, front);
    EndOfPath(files, front, rest, last);
    WalkOrdinary([], front, rest);
  }

  /** Without a link and without a NUL the system gets to the path itself. */
  lemma {:induction false} ArrivesAtItself(files: Files, p: Path, last: bool)
    requires forall part | part in p :: Ordinary(part) && NUL !in part
    requires !exists q :: MeetsLink(files, p, last, q)
    ensures Reach(files, p, last) == Arrives(p)
  {
    hide MeetsLink, Reach;
    StaysInsideIff(files, p, last);
    NoCut(p);
    WalkOrdinary([], p, []);
    assert p + [] == p && [] + p == p;
    if p != [] {
      assert p[0] in p;
      NoDotsAndNul(p[0]);
    }
  }

  lemma {:induction false} NoDotsAndNul(part: Bytes)
    ensures DotsAndNul(part) ==> NUL in part
  {
    if DotsAndNul(part) {
      assert part[2] == NUL;
    }
  }

  /** What the system sees of checked components: ordinary ones and perhaps a special one at the end. */
  lemma {:induction false} FrontOf(p: Path) returns (front: Path, d: Path)
    requires forall part | part in p :: Ordinary(part)
    ensures d == OnDisk(p) && front <= d && |d| <= |front| + 1
    ensures (forall part | part in front :: !Special(part)) && (d != front ==> Special(d[|front|]))
    ensures d == [[DOT, DOT]] <==> p != [] && DotsAndNul(p[0])
  {
    hide OnDisk, Before;
    d := OnDisk(p);
    if p == [] {
      EmptyOnDisk();
      return [], d;
    }
    CutShape(p);
    var last := d[|d| - 1];
    front := if Special(last) then d[..|d| - 1] else d;
    assert d == d[..|d| - 1] + [last];
  }

  lemma {:induction false} EmptyOnDisk()
    ensures OnDisk([]) == []
  {
  }

  lemma {:induction false} CutShape(p: Path)
    requires p != [] && forall part | part in p :: Ordinary(part)
    ensures OnDisk(p) != [] && forall part | part in OnDisk(p)[..|OnDisk(p)| - 1] :: !Special(part)
    ensures OnDisk(p) == [[DOT, DOT]] <==> DotsAndNul(p[0])
  {
    hide OnDisk, Before;
    var k := CutPoint(p);
    var d := OnDisk(p);
    assert p[0] in p && forall part | part in p[..k] :: part in p;
    if DotsAndNul(p[0]) {
      assert p[0][2] == NUL && NUL in p[0];
    }
    if k > 0 {
      assert p[..k][0] == p[0] && p[0] in p[..k] && NUL !in p[0];
    }
    assert d[..|d| - 1] == p[..|d| - 1] by {
      assert k < |p| ==> d[..|d| - 1] == p[..k];
    }
    forall part | part in d[..|d| - 1]
      ensures !Special(part)
    {
      assert part in p[..|d| - 1] && part in p;
      assert Ordinary(part);
    }
    if k == |p| {
      assert p[..k] == p;
      assert d[0] != [DOT, DOT];
    } else {
      DotsBeforeNul(p[k]);
    }
  }

  lemma {:induction false} EndOfPath(files: Files, at: Path, rest: Path, last: bool)
    requires |rest| <= 1 && (rest != [] ==> Special(rest[0]))
    ensures Follow(files, at, rest, last) ==
            match Walk(at, rest) case None => Above case Some(q) => Arrives(q)
    ensures Walk(at, rest) == None <==> rest == [[DOT, DOT]] && at == []
  {
    if rest != [] {
      assert rest == [rest[0]] && rest[1..] == [];
    }
  }

  // ----- What creating directories leaves -----

  /** `q` is `p` or a directory on the way to it. */
  predicate OnWay(q: Path, p: Path) {
    q != [] && q <= p
  }

  /** Creating directories succeeds exactly if nothing but directories is in the way, and then adds
      exactly the missing directories on the way and changes nothing. */
  lemma {:induction false} MakeDirectoriesExact(files: Files, p: Path)
    ensures MakeDirectories(files, p).Some? <==> forall q | q in files && OnWay(q, p) :: files[q].Directory?
    ensures MakeDirectories(files, p).Some? ==>
              var made := MakeDirectories(files, p).value;
              forall q :: (q in made <==> q in files || OnWay(q, p))
                          && (q in made ==> made[q] == if q in files then files[q] else Directory)
    decreases |p|
  {
    if p != [] {
      MakeDirectoriesExact(files, Parent(p));
      OnWayByParent(p);
      hide OnWay;
    } else {
      assert forall q :: !OnWay(q, p);
    }
  }

  lemma {:induction false} OnWayByParent(p: Path)
    requires p != []
    ensures forall q :: OnWay(q, p) <==> q == p || OnWay(q, Parent(p))
  {
    forall q | OnWay(q, p) && q != p
      ensures OnWay(q, Parent(p))
    {
      assert |q| < |p| && q == p[..|q|];
    }
  }

  // ----- What placing a link leaves -----

  /** Whatever is at the place of a link and can be removed is replaced by it. */
  lemma {:induction false} LinkReplaces(files: Files, p: Path, q: Path, target: Bytes)
    requires p != [] && Reach(files, p, false).Arrives? && Locate(p) == Some(q) && HasParent(files, q)
    requires q in files && files[q].Directory? ==> !HasChild(files, q)
    requires BeforeNul(target) != []
    ensures LinkOrFallback(files, p, target) == Attempt(Done, files[q := Symlink(BeforeNul(target))])
  {
    hide Reach, Locate, BeforeNul, HasChild;
    var cleared := if q in files then files - {q} else files;
    assert Remove(files, q) == cleared;
    assert HasParent(cleared, q) by {
      assert |q| > 1 ==> Parent(q) != q;
    }
    assert cleared[q := Symlink(BeforeNul(target))] == files[q := Symlink(BeforeNul(target))];
  }

  /** A directory that is not empty stays; the target then goes into a text file beside it, named after
      it, and nothing else changes. */
  lemma {:induction false} FallbackHoldsTarget(files: Files, p: Path, fallback: Path, target: Bytes)
    requires p != [] && forall part | part in p :: Ordinary(part) && NUL !in part
    requires !exists q :: MeetsLink(files, p, false, q)
    requires p in files && files[p].Directory? && HasChild(files, p) && HasParent(files, p)
    requires fallback == Parent(p) + [p[|p| - 1] + FALLBACK_SUFFIX]
    requires fallback in files ==> files[fallback].File?
    ensures var mode := if fallback in files then files[fallback].mode else DEFAULT_MODE;
            LinkOrFallback(files, p, target) == Attempt(Done, files[fallback := File(target, mode)])
  {
    hide HasChild, BeforeNul, Reach, OnDisk, Locate, MeetsLink, Ordinary;
    NoCut(p);
    ArrivesAtItself(files, p, false);
    LocatesItself(p);
    FallbackReached(files, p, fallback);
    assert Parent(fallback) == Parent(p);
  }

  lemma {:induction false} LocatesItself(p: Path)
    requires p != [] && forall part | part in p :: Ordinary(part) && NUL !in part
    ensures Locate(p) == Some(p)
  {
    NoCut(p);
    assert p[|p| - 1] in p;
  }

  lemma {:induction false} FallbackReached(files: Files, p: Path, fallback: Path)
    requires p != [] && forall part | part in p :: Ordinary(part) && NUL !in part
    requires !exists q :: MeetsLink(files, p, false, q)
    requires fallback == FallbackPath(p)
    requires fallback in files ==> files[fallback].File?
    ensures Reach(files, fallback, true) == Arrives(fallback) && Locate(fallback) == Some(fallback)
  {
    hide Reach, OnDisk, Locate, Ordinary;
    NoCut(p);
    OrdinaryFallback(p);
    NoCut(fallback);
    LocatesItself(fallback);
    forall q | q in files && q != [] && q <= fallback
      ensures !files[q].Symlink?
    {
      if q != fallback {
        OnTheWayOfBoth(p, fallback, q);
        assert !MeetsLink(files, p, false, q);
      }
    }
    ArrivesAtItself(files, fallback, true);
  }

  lemma {:induction false} OnTheWayOfBoth(p: Path, fallback: Path, q: Path)
    requires p != [] && fallback == FallbackPath(p) && q != [] && q <= fallback && q != fallback
    requires forall part | part in p :: Ordinary(part)
    ensures q <= p && |q| < |p| && !Special(q[|q| - 1])
  {
    assert |q| < |fallback| == |p|;
    assert q == fallback[..|q|] == p[..|q|];
    assert q[|q| - 1] == p[|q| - 1] && p[|q| - 1] in p;
  }

  lemma {:induction false} OrdinaryFallback(p: Path)
    requires p != [] && forall part | part in p :: Ordinary(part) && NUL !in part
    ensures forall part | part in FallbackPath(p) :: Ordinary(part) && NUL !in part
  {
    hide Ordinary;
    var last := p[|p| - 1];
    assert last in p && forall part | part in Parent(p) :: part in p;
    OrdinarySuffix(last);
  }

  lemma {:induction false} OrdinarySuffix(part: Bytes)
    requires Ordinary(part)
    ensures Ordinary(part + FALLBACK_SUFFIX) && (NUL in part + FALLBACK_SUFFIX <==> NUL in part)
  {
    var longer := part + FALLBACK_SUFFIX;
    assert |longer| >= 22 && SLASH !in FALLBACK_SUFFIX && NUL !in FALLBACK_SUFFIX;
    assert forall c | c in part :: c in longer;
    assert forall c | c in longer :: c in part || c in FALLBACK_SUFFIX;
  }
}
