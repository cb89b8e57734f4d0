/** Names on the wire and paths below the output directory. A path is the sequence of its
    components; on the wire they are joined with '/'. */
module Paths {
  import opened Basics
  import opened Sequences

  type Path = seq<Bytes>

  const SLASH: Byte := 47
  const DOT: Byte := 46
  const NUL: Byte := 0

  function Parent(p: Path): Path
    requires p != []
  {
    p[..|p| - 1]
  }

  predicate Special(part: Bytes) {
    part == [] || part == [DOT] || part == [DOT, DOT]
  }

  /** A component that names an entry of its directory. */
  ghost predicate Ordinary(part: Bytes) {
    !Special(part) && SLASH !in part
  }

  /** A component as a directory listing yields it: no file system holds a name with a NUL. */
  ghost predicate ValidPart(part: Bytes) {
    Ordinary(part) && NUL !in part
  }

  ghost predicate ValidPath(p: Path) {
    p != [] && forall part | part in p :: ValidPart(part)
  }

  function WirePath(p: Path): Bytes
    requires p != []
  {
    Join(p, SLASH)
  }

  function DropEmpty(parts: seq<Bytes>): seq<Bytes> {
    if parts == [] then []
    else (if parts[0] == [] then [] else [parts[0]]) + DropEmpty(parts[1..])
  }

  /** The components a relative path iterates over: runs of slashes count as one, and a trailing
      slash leaves an empty last component. */
  function RelativeParts(name: Bytes): (p: Path)
    ensures p != []
  {
    var pieces := Split(name, SLASH);
    DropEmpty(pieces[..|pieces| - 1]) + [pieces[|pieces| - 1]]
  }

  /** The check on incoming directory names: relative, and no empty, "." or ".." component. */
  function SafeRelativePath(name: Bytes): (p: Option<Path>)
    ensures p.Some? ==> p.value != []
  {
    if name == [] || name[0] == SLASH then None
    else
      var parts := RelativeParts(name);
      if exists part | part in parts :: Special(part) then None else Some(parts)
  }

  /** The last component of an incoming file name, which must name a file. */
  function SafeFileName(name: Bytes): Option<Bytes> {
    var pieces := Split(name, SLASH);
    var last := pieces[|pieces| - 1];
    if Special(last) then None else Some(last)
  }

  lemma {:induction false} DropEmptyPieces(parts: seq<Bytes>)
    ensures forall part | part in DropEmpty(parts) :: part in parts && part != []
    ensures (forall part | part in parts :: part != []) ==> DropEmpty(parts) == parts
  {
    if parts != [] {
      DropEmptyPieces(parts[1..]);
      assert parts == [parts[0]] + parts[1..];
      if forall part | part in parts :: part != [] {
        assert forall part | part in parts[1..] :: part in parts;
        assert parts[0] in parts;
      }
    }
  }

  lemma {:induction false} FirstOfJoin(p: Path)
    requires p != [] && p[0] != []
    ensures WirePath(p) != [] && WirePath(p)[0] == p[0][0]
  {
  }

  /** Every path of a source tree survives the wire. */
  lemma {:induction false} WirePathRoundTrip(p: Path)
    requires ValidPath(p)
    ensures SafeRelativePath(WirePath(p)) == Some(p)
  {
    hide Split, DropEmpty, Join;
    SplitJoin(p, SLASH);
    assert p[0] in p;
    FirstOfJoin(p);
    var n := |p| - 1;
    assert forall part | part in p[..n] :: part in p;
    DropEmptyPieces(p[..n]);
    assert p == p[..n] + [p[n]];
    assert RelativeParts(WirePath(p)) == p;
  }

  /** Whatever name arrives, an accepted one consists of ordinary components only. */
  lemma {:induction false} SafeRelativePathIsSafe(name: Bytes)
    requires SafeRelativePath(name).Some?
    ensures forall part | part in SafeRelativePath(name).value :: Ordinary(part)
  {
    var pieces := Split(name, SLASH);
    var last := pieces[|pieces| - 1];
    JoinSplit(name, SLASH);
    DropEmptyPieces(pieces[..|pieces| - 1]);
    forall part | part in RelativeParts(name)
      ensures part in pieces
    {
      if part != last {
        assert part in pieces[..|pieces| - 1];
      } else {
        assert last in pieces;
      }
    }
  }

  /** The receiver's check changes nothing in a name the sender already checked. */
  lemma {:induction false} SafeFileNameIdempotent(name: Bytes)
    requires SafeFileName(name).Some?
    ensures Ordinary(SafeFileName(name).value)
    ensures SafeFileName(SafeFileName(name).value) == SafeFileName(name)
  {
    var pieces := Split(name, SLASH);
    var last := pieces[|pieces| - 1];
    JoinSplit(name, SLASH);
    assert last in pieces;
    SplitFirst(last, [], SLASH);
  }

  // ----- What the system makes of a path: it sees the bytes before the first NUL -----

  /** Does the name begin with ".." and a NUL? */
  predicate DotsAndNul(name: Bytes) {
    [DOT, DOT, NUL] <= name
  }

  function BeforeNul(s: Bytes): Bytes {
    Before(s, NUL)
  }

  /** The components up to the first NUL. */
  function OnDisk(p: Path): (d: Path)
    ensures p != [] ==> d != []
  {
    if p == [] then []
    else if NUL in p[0] then [BeforeNul(p[0])]
    else [p[0]] + OnDisk(p[1..])
  }

  /** Where a path leads from the output directory, if it stays there: empty and "." components stay
      where they are, ".." leads to the parent. */
  function Walk(at: Path, p: Path): Option<Path>
    decreases p
  {
    if p == [] then Some(at)
    else if p[0] == [] || p[0] == [DOT] then Walk(at, p[1..])
    else if p[0] == [DOT, DOT] then if at == [] then None else Walk(Parent(at), p[1..])
    else Walk(at + [p[0]], p[1..])
  }

  /** The entry that the system creates or opens for a checked path; None if what it sees ends in an
      empty, "." or ".." component, which is always some existing directory. */
  function Locate(p: Path): (d: Option<Path>)
    requires p != []
    ensures d.Some? ==> d.value != []
  {
    var d := OnDisk(p);
    if Special(d[|d| - 1]) then None else Some(d)
  }

  /** The directory that exists after the system has created a checked path as one. */
  function Folder(p: Path): Path {
    var d := OnDisk(p);
    if d != [] && Special(d[|d| - 1]) then Parent(d) else d
  }

  /** The cut path is the text of the path, cut. */
  lemma {:induction false} OnDiskIsCut(p: Path)
    requires p != []
    ensures BeforeNul(WirePath(p)) == WirePath(OnDisk(p))
  {
    hide Before;
    if |p| == 1 {
      if NUL !in p[0] {
        BeforeNone(p[0], NUL);
      }
    } else {
      OnDiskIsCut(p[1..]);
      var rest, cut := WirePath(p[1..]), OnDisk(p[1..]);
      assert WirePath(p) == p[0] + ([SLASH] + rest);
      hide OnDisk, Join;
      BeforeAppend(p[0], [SLASH] + rest, NUL);
      BeforeAppend([SLASH], rest, NUL);
      CutFirst(p);
      if NUL !in p[0] {
        JoinMore(p[0], cut);
      }
    }
  }

  lemma {:induction false} CutFirst(p: Path)
    requires p != []
    ensures OnDisk(p) == if NUL in p[0] then [BeforeNul(p[0])] else [p[0]] + OnDisk(p[1..])
    ensures WirePath([BeforeNul(p[0])]) == BeforeNul(p[0])
  {
  }

  lemma {:induction false} JoinMore(part: Bytes, rest: Path)
    requires rest != []
    ensures WirePath([part] + rest) == part + ([SLASH] + WirePath(rest))
  {
    assert ([part] + rest)[1..] == rest;
  }

  /** Without a NUL the system sees the path as it is. */
  lemma {:induction false} NoCut(p: Path)
    requires forall part | part in p :: NUL !in part
    ensures OnDisk(p) == p
  {
    if p != [] {
      assert p[0] in p;
      NoCut(p[1..]);
      assert p == [p[0]] + p[1..];
    }
  }

  lemma {:induction false} ValidPathStays(p: Path)
    requires ValidPath(p)
    ensures Locate(p) == Some(p) && Folder(p) == p && Folder(Parent(p)) == Parent(p)
  {
    assert forall part | part in p :: NUL !in part;
    NoCut(p);
    assert p[|p| - 1] in p;
    assert forall part | part in Parent(p) :: part in p;
    NoCut(Parent(p));
    if |p| > 1 {
      assert p[|p| - 2] in p;
    }
  }

  lemma {:induction false} WalkOrdinary(at: Path, p: Path, rest: Path)
    requires forall part | part in p :: !Special(part)
    ensures Walk(at, p + rest) == Walk(at + p, rest)
    decreases |p|
  {
    if p == [] {
      assert p + rest == rest && at + p == at;
    } else {
      assert p[0] in p;
      WalkOrdinary(at + [p[0]], p[1..], rest);
      assert (p + rest)[1..] == p[1..] + rest;
      assert at + [p[0]] + p[1..] == at + p;
    }
  }

  /** The first component with a NUL, if any, is where the path is cut. */
  lemma {:induction false} CutPoint(p: Path) returns (k: nat)
    ensures k <= |p| && forall part | part in p[..k] :: NUL !in part
    ensures k < |p| ==> NUL in p[k] && OnDisk(p) == p[..k] + [BeforeNul(p[k])]
    ensures k == |p| ==> OnDisk(p) == p
  {
    if p == [] || NUL in p[0] {
      return 0;
    }
    k := CutPoint(p[1..]);
    assert p == [p[0]] + p[1..];
    assert p[..k + 1] == [p[0]] + p[1..][..k];
    return k + 1;
  }

  /** Where checked components lead as names, links apart: exactly to the path they spell if and only
      if none contains a NUL, and out of the output directory if and only if the first is ".." before a
      NUL. */
  lemma {:induction false} WhereItLeads(p: Path)
    requires p != [] && forall part | part in p :: Ordinary(part)
    ensures Walk([], OnDisk(p)) == Some(p) <==> forall part | part in p :: NUL !in part
    ensures Walk([], OnDisk(p)) == None <==> DotsAndNul(p[0])
    ensures Locate(p).Some? ==> Walk([], OnDisk(p)) == Locate(p)
  {
    hide OnDisk, Before;
    var k := CutPoint(p);
    var front := p[..k];
    if DotsAndNul(p[0]) {
      assert p[0][2] == NUL;
    }
    assert forall part | part in front :: part in p;
    if k == |p| {
      WalkOrdinary([], p, []);
      assert p + [] == p && [] + p == p;
      assert p[0] in p && p[|p| - 1] in p;
    } else {
      assert p[k] in p;
      var cut := BeforeNul(p[k]);
      WalkOrdinary([], front, [cut]);
      assert [] + front == front;
      LastStep(front, cut);
      BeforeClean(p[k], NUL);
      DotsBeforeNul(p[k]);
      if k > 0 {
        assert p[0] in front;
      }
      assert forall part | part in front + [cut] :: NUL !in part;
    }
  }

  lemma {:induction false} LastStep(at: Path, part: Bytes)
    ensures Walk(at, [part]) ==
            if part == [] || part == [DOT] then Some(at)
            else if part == [DOT, DOT] then if at == [] then None else Some(Parent(at))
            else Some(at + [part])
  {
    assert [part][1..] == [];
  }

  lemma {:induction false} DotsBeforeNul(s: Bytes)
    requires NUL in s
    ensures BeforeNul(s) == [DOT, DOT] <==> DotsAndNul(s)
  {
    BeforeIsFollowed(s, NUL);
    if DotsAndNul(s) {
      assert s == [DOT, DOT] + ([NUL] + s[3..]);
      BeforeAppend([DOT, DOT], [NUL] + s[3..], NUL);
    }
  }

  lemma {:induction false} NulInJoin(p: Path)
    requires p != []
    ensures NUL in WirePath(p) <==> exists part :: part in p && NUL in part
  {
    assert p[0] in p;
    if |p| > 1 {
      NulInJoin(p[1..]);
      assert p == [p[0]] + p[1..];
    }
  }

  /** The checked components hold the bytes of the name, except for repeated slashes. */
  lemma {:induction false} PartsOfName(name: Bytes)
    requires SafeRelativePath(name).Some?
    ensures var p := SafeRelativePath(name).value;
            && p[0] <= name
            && (|name| > |p[0]| ==> name[|p[0]|] == SLASH)
            && (NUL in name <==> exists part :: part in p && NUL in part)
  {
    var pieces, p := Split(name, SLASH), RelativeParts(name);
    var n := |pieces| - 1;
    JoinSplit(name, SLASH);
    FirstPiece(pieces, name);
    DropEmptyPieces(pieces[..n]);
    NulInJoin(pieces);
    assert pieces == pieces[..n] + [pieces[n]];
    AllPieces(pieces[..n]);
    forall part | part in pieces && NUL in part
      ensures part in p
    {
      assert part != [];
    }
    forall part | part in p
      ensures part in pieces
    {
      if part !in DropEmpty(pieces[..n]) {
        assert part == pieces[n];
      }
    }
    if n > 0 {
      assert DropEmpty(pieces[..n])[0] == pieces[0];
    }
  }

  lemma {:induction false} AllPieces(parts: seq<Bytes>)
    ensures forall part | part in parts && part != [] :: part in DropEmpty(parts)
  {
    if parts != [] {
      AllPieces(parts[1..]);
      assert parts == [parts[0]] + parts[1..];
    }
  }

  lemma {:induction false} FirstPiece(pieces: seq<Bytes>, name: Bytes)
    requires pieces != [] && Join(pieces, SLASH) == name
    ensures pieces[0] <= name && (|name| > |pieces[0]| ==> name[|pieces[0]|] == SLASH)
    ensures name != [] && name[0] != SLASH && |pieces| > 1 ==> pieces[0] != []
  {
  }

  /** Exactly where an accepted directory name leads as a name, links apart: to the path it spells if
      and only if it contains no NUL, and out of the output directory if and only if it begins with ".."
      and a NUL. */
  lemma {:induction false} AcceptedNameLeads(name: Bytes)
    requires SafeRelativePath(name).Some?
    ensures var p := SafeRelativePath(name).value;
            && (Walk([], OnDisk(p)) == Some(p) <==> NUL !in name)
            && (Walk([], OnDisk(p)) == None <==> DotsAndNul(name))
            && (Locate(p).Some? ==> Walk([], OnDisk(p)) == Locate(p))
  {
    hide OnDisk, Walk, Locate, SafeRelativePath;
    SafeRelativePathIsSafe(name);
    PartsOfName(name);
    var p := SafeRelativePath(name).value;
    WhereItLeads(p);
    assert p[0] in p && SLASH !in p[0];
    if DotsAndNul(name) {
      assert name[0] == DOT && name[1] == DOT && name[2] == NUL;
    }
  }

  /** The same for the name of a single file. */
  lemma {:induction false} AcceptedFileNameLeads(name: Bytes)
    requires SafeFileName(name).Some?
    ensures var part := SafeFileName(name).value;
            && (Walk([], OnDisk([part])) == Some([part]) <==> NUL !in part)
            && (Walk([], OnDisk([part])) == None <==> DotsAndNul(part))
            && (Locate([part]).Some? ==> Walk([], OnDisk([part])) == Locate([part]))
  {
    hide OnDisk, Walk, Locate, SafeFileName;
    SafeFileNameIdempotent(name);
    WhereItLeads([SafeFileName(name).value]);
  }

  /** Such names pass the checks: ".." and a NUL, alone or followed by anything without a slash. */
  lemma {:induction false} DotsAndNulAccepted(rest: Bytes)
    requires SLASH !in rest
    ensures var name := [DOT, DOT, NUL] + rest;
            && SafeRelativePath(name) == Some([name])
            && SafeFileName(name) == Some(name)
            && Walk([], OnDisk([name])) == None
  {
    var name := [DOT, DOT, NUL] + rest;
    SplitFirst(name, [], SLASH);
    var none: Path := [name][..0];
    assert none == [] && DropEmpty(none) == [] && name[0] == DOT && name[2] == NUL;
    assert RelativeParts(name) == [name];
    hide OnDisk, Walk, SafeRelativePath;
    AcceptedNameLeads(name);
  }

  /** Of a file name only what follows its last slash counts, and it must name something. */
  lemma {:induction false} FileNameIsLastPart(directory: Bytes, base: Bytes)
    requires SLASH !in base
    ensures SafeFileName(base) == if base in {[], [46], [46, 46]} then None else Some(base)
    ensures SafeFileName(directory + [SLASH] + base) == SafeFileName(base)
  {
    SplitFirst(base, [], SLASH);
    LastPiece(directory, base);
  }

  lemma {:induction false} LastPiece(directory: Bytes, base: Bytes)
    requires SLASH !in base
    ensures var pieces := Split(directory + [SLASH] + base, SLASH); |pieces| > 1 && pieces[|pieces| - 1] == base
  {
    var s := directory + [SLASH] + base;
    if directory == [] {
      SplitFirst([], base, SLASH);
      SplitFirst(base, [], SLASH);
      assert s == [] + [SLASH] + base;
    } else {
      LastPiece(directory[1..], base);
      assert s[1..] == directory[1..] + [SLASH] + base;
      SplitLonger(s);
    }
  }

  lemma {:induction false} SplitLonger(s: Bytes)
    requires s != [] && |Split(s[1..], SLASH)| > 1
    ensures |Split(s, SLASH)| > 1
    ensures var pieces, rest := Split(s, SLASH), Split(s[1..], SLASH);
            pieces[|pieces| - 1] == rest[|rest| - 1]
  {
  }

  /** Exactly which directory names are accepted: those that are not empty, neither begin nor end with a
      slash, and have no "." or ".." between slashes; runs of slashes count as one. */
  lemma {:induction false} RelativePathExact(name: Bytes)
    ensures SafeRelativePath(name).Some? <==>
            && name != [] && name[0] != 47 && name[|name| - 1] != 47
            && forall piece | piece in Split(name, 47) :: piece != [46] && piece != [46, 46]
    ensures SafeRelativePath(name).Some? ==> SafeRelativePath(name).value == DropEmpty(Split(name, 47))
  {
    hide Split, DropEmpty;
    LastByte(name);
    SpecialPieces(Split(name, SLASH));
    DropEmptyLast(Split(name, SLASH));
  }

  lemma {:induction false} SpecialPieces(pieces: seq<Bytes>)
    requires pieces != []
    ensures var n := |pieces| - 1;
            (exists part | part in DropEmpty(pieces[..n]) + [pieces[n]] :: Special(part)) <==>
            pieces[n] == [] || exists piece | piece in pieces :: piece == [46] || piece == [46, 46]
  {
    hide DropEmpty;
    var n := |pieces| - 1;
    var front, last := pieces[..n], pieces[n];
    var kept := DropEmpty(front);
    DropEmptyPieces(front);
    AllPieces(front);
    assert pieces == front + [last];
    InFrontOrLast(front, last);
    InFrontOrLast(kept, last);
    if part :| part in kept + [last] && Special(part) {
      assert part in pieces;
    }
    if piece :| piece in pieces && (piece == [46] || piece == [46, 46]) {
      assert piece in kept + [last] && Special(piece);
    }
  }

  lemma {:induction false} InFrontOrLast(front: seq<Bytes>, last: Bytes)
    ensures last in front + [last] && forall part :: part in front + [last] <==> part in front || part == last
  {
  }

  lemma {:induction false} DropEmptyCons(part: Bytes, rest: seq<Bytes>)
    ensures DropEmpty([part] + rest) == (if part == [] then [] else [part]) + DropEmpty(rest)
    ensures DropEmpty([]) == []
  {
    assert ([part] + rest)[1..] == rest;
  }

  lemma {:induction false} DropEmptyLast(parts: seq<Bytes>)
    requires parts != []
    ensures parts[|parts| - 1] != [] ==> DropEmpty(parts) == DropEmpty(parts[..|parts| - 1]) + [parts[|parts| - 1]]
  {
    hide DropEmpty;
    var n := |parts| - 1;
    DropEmptyCons(parts[0], parts[1..]);
    assert parts == [parts[0]] + parts[1..];
    if n > 0 {
      DropEmptyLast(parts[1..]);
      DropEmptyCons(parts[0], parts[1..n]);
      assert parts[..n] == [parts[0]] + parts[1..n] && parts[1..][..n - 1] == parts[1..n];
    }
  }

  lemma {:induction false} LastByte(name: Bytes)
    ensures var pieces := Split(name, SLASH);
            pieces[|pieces| - 1] == [] <==> name == [] || name[|name| - 1] == SLASH
  {
    if name != [] {
      LastByte(name[1..]);
      assert name[1..] != [] ==> name[1..][|name| - 2] == name[|name| - 1];
    }
  }
}
