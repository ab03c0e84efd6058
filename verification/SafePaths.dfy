/** What the tar reader's test of a member's path lets through, segment by segment. */
module SafePaths {
  import opened TarReader

  predicate Unslashed(parts: seq<Path>) {
    forall part | part in parts :: Slash !in part
  }

  /** A segment that names a file or a directory of its own. */
  predicate Proper(part: Path) {
    part != [] && part != [46] && part != [46, 46]
  }

  /** Every segment names something, except that the path may end in a slash. */
  predicate Plain(p: Path) {
    var parts := Segments(p);
    var n := |parts| - 1;
    && (forall i | 0 <= i < n :: Proper(parts[i]))
    && (Proper(parts[n]) || (parts[n] == [] && n > 0))
  }

  lemma StartsInSlash(p: Path)
    requires p != []
    ensures p[0] == Slash <==> Segments(p)[0] == []
  {
  }

  lemma JoinSlash(rest: seq<Path>)
    requires rest != []
    ensures Join([[]] + rest) == [Slash] + Join(rest)
  {
    assert ([[]] + rest)[1..] == rest;
  }

  lemma JoinLonger(c: Point, first: Path, more: seq<Path>)
    ensures Join([[c] + first] + more) == [c] + Join([first] + more)
  {
    assert ([[c] + first] + more)[1..] == ([first] + more)[1..] == more;
    if more != [] {
      Regrouped([c], first, [Slash]);
      Regrouped([c], first + [Slash], Join(more));
    }
  }

  lemma {:induction false} JoinSegments(p: Path)
    ensures Join(Segments(p)) == p
    decreases |p|
  {
    if p != [] {
      JoinSegments(p[1..]);
      var rest := Segments(p[1..]);
      JoinSlash(rest);
      JoinLonger(p[0], rest[0], rest[1..]);
      assert rest == [rest[0]] + rest[1..];
      assert p == [p[0]] + p[1..];
    }
  }

  lemma {:induction false} SegmentsUnslashed(p: Path)
    ensures Unslashed(Segments(p))
    decreases |p|
  {
    if p != [] {
      SegmentsUnslashed(p[1..]);
      var rest := Segments(p[1..]);
      assert rest[0] in rest;
    }
  }

  lemma {:induction false} SegmentsOfPart(s: Path, t: Path)
    requires Slash !in s
    ensures Segments(s + [Slash] + t) == [s] + Segments(t)
    decreases |s|
  {
    var p := s + [Slash] + t;
    if s == [] {
      assert p[1..] == t;
    } else {
      assert s[0] in s && p[0] == s[0];
      assert p[1..] == s[1..] + [Slash] + t;
      SegmentsOfPart(s[1..], t);
      assert [s[0]] + s[1..] == s;
    }
  }

  lemma {:induction false} SegmentsOfOne(s: Path)
    requires Slash !in s
    ensures Segments(s) == [s]
    decreases |s|
  {
    if s != [] {
      assert s[0] in s;
      SegmentsOfOne(s[1..]);
      assert [s[0]] + s[1..] == s;
    }
  }

  lemma {:induction false} SegmentsJoin(parts: seq<Path>)
    requires parts != [] && Unslashed(parts)
    ensures Segments(Join(parts)) == parts
    decreases |parts|
  {
    assert parts[0] in parts;
    if |parts| == 1 {
      SegmentsOfOne(parts[0]);
    } else {
      SegmentsOfPart(parts[0], Join(parts[1..]));
      SegmentsJoin(parts[1..]);
    }
  }

  lemma {:induction false} JoinAppends(parts: seq<Path>, last: Path)
    requires parts != []
    ensures Join(parts + [last]) == Join(parts) + [Slash] + last
    decreases |parts|
  {
    assert (parts + [last])[1..] == parts[1..] + [last];
    if |parts| > 1 {
      JoinAppends(parts[1..], last);
    }
  }

  lemma {:induction false} EndsInSlash(p: Path)
    requires p != []
    ensures p[|p| - 1] == Slash <==> Segments(p)[|Segments(p)| - 1] == []
    decreases |p|
  {
    if |p| > 1 {
      EndsInSlash(p[1..]);
      JoinSegments(p[1..]);
    } else {
      assert p[1..] == [];
    }
  }

  lemma {:induction false} NamedIsProper(parts: seq<Path>)
    ensures forall part | part in Named(parts) :: part in parts && part != [] && part != Dot
    decreases |parts|
  {
    if parts != [] {
      NamedIsProper(parts[1..]);
    }
  }

  lemma {:induction false} NamedKeeps(parts: seq<Path>)
    requires forall i | 0 <= i < |parts| :: Proper(parts[i])
    ensures Named(parts) == parts && Named(parts + [[]]) == parts
    decreases |parts|
  {
    if parts == [] {
      assert (parts + [[]])[1..] == [];
    } else {
      NamedKeeps(parts[1..]);
      assert (parts + [[]])[1..] == parts[1..] + [[]];
      assert [parts[0]] + parts[1..] == parts;
    }
  }

  /** A plain path that ends in a slash keeps all segments before it. */
  lemma DirectoryKeeps(p: Path, parts: seq<Path>)
    requires parts == Segments(p) && Plain(p) && !Proper(parts[|parts| - 1])
    ensures var body := parts[..|parts| - 1];
      Named(parts) == body && body != [] && Join(parts) == Join(body) + [Slash] && Join(body) != []
  {
    var body := parts[..|parts| - 1];
    assert parts == body + [[]];
    assert forall i | 0 <= i < |body| :: Proper(body[i]) && body[i] == parts[i];
    NamedKeeps(body);
    JoinAppends(body, []);
    assert Proper(body[0]);
  }

  lemma PlainNotEmpty(p: Path)
    requires Plain(p)
    ensures p != []
  {
  }

  /** Normalisation keeps a plain path. */
  lemma PlainIsNormal(p: Path, parts: seq<Path>)
    requires parts == Segments(p) && Plain(p)
    ensures Normalize(p) == p
  {
    hide Segments, Named, Join;
    PlainNotEmpty(p);
    JoinSegments(p);
    EndsInSlash(p);
    if Proper(parts[|parts| - 1]) {
      assert forall i | 0 <= i < |parts| :: Proper(parts[i]);
      NamedKeeps(parts);
    } else {
      DirectoryKeeps(p, parts);
    }
  }

  lemma PlainIsSafe(p: Path)
    requires Plain(p)
    ensures Safe(p)
  {
    hide Segments, Normalize;
    PlainNotEmpty(p);
    StartsInSlash(p);
    PlainIsNormal(p, Segments(p));
    assert forall part | part in Segments(p) :: Proper(part) || part == [];
  }

  lemma SafeIsPlain(p: Path)
    requires Safe(p) && p != Dot && p != Dot + [Slash]
    ensures Plain(p)
  {
    var named := Named(Segments(p));
    SegmentsUnslashed(p);
    NamedIsProper(Segments(p));
    assert named != [];
    assert Unslashed(named);
    SegmentsJoin(named);
    forall i | 0 <= i < |named|
      ensures Proper(named[i])
    {
      assert named[i] in named;
    }
    var body := Join(named);
    if p[|p| - 1] == Slash {
      assert body != [] && p == body + [Slash];
      JoinAppends(named, []);
      assert Join(named + [[]]) == p;
      SegmentsJoin(named + [[]]);
      assert Segments(p) == named + [[]];
    } else {
      assert Normalize(p) == p == if body == [] then Dot else body;
      assert p == body;
    }
  }

  lemma DotSlashIsSafe()
    ensures Safe(Dot + [Slash])
  {
    var p := Dot + [Slash];
    SegmentsOfPart(Dot, []);
    assert p == Dot + [Slash] + [];
    var parts := [Dot, []];
    assert Segments(p) == parts;
    assert parts[1..] == [[]];
    assert Named(parts[1..]) == [];
    assert Named(parts) == [];
  }

  /**
   * A path passes exactly if it is `.`, `./`, or a chain of segments that each name something, so
   * none of them leads upwards, nowhere, or to the root.
   */
  lemma SafeMeansPlain(p: Path)
    ensures Safe(p) <==> Plain(p) || p == Dot || p == Dot + [Slash]
  {
    if Plain(p) {
      PlainIsSafe(p);
    } else if p == Dot {
      SegmentsOfOne(Dot);
    } else if p == Dot + [Slash] {
      DotSlashIsSafe();
    } else if Safe(p) {
      SafeIsPlain(p);
    }
  }
}
