/**
 * The canonical text of a JSON value: members sorted by key, no blanks. Comparing canonical texts
 * decides whether two values are equal up to the order of object members.
 */
module CanonicalJson {
  import opened Options
  import opened JsonText

  // ---------------------------------------------------------------- the order of keys

  /** Unit by unit; a proper prefix comes first. */
  predicate Less(a: Text, b: Text) {
    b != [] && (a == [] || a[0] < b[0] || (a[0] == b[0] && Less(a[1..], b[1..])))
  }

  lemma {:induction false} LessIsTotal(a: Text, b: Text)
    ensures a == b || Less(a, b) || Less(b, a)
    decreases |a|
  {
    if a != [] && b != [] {
      LessIsTotal(a[1..], b[1..]);
      assert a == [a[0]] + a[1..] && b == [b[0]] + b[1..];
    }
  }

  lemma {:induction false} LessIsStrict(a: Text)
    ensures !Less(a, a)
    decreases |a|
  {
    if a != [] {
      LessIsStrict(a[1..]);
    }
  }

  lemma {:induction false} LessIsTransitive(a: Text, b: Text, c: Text)
    requires Less(a, b) && Less(b, c)
    ensures Less(a, c)
    decreases |a|
  {
    if a != [] && a[0] == b[0] && b[0] == c[0] {
      LessIsTransitive(a[1..], b[1..], c[1..]);
    }
  }

  /** Up to the first `k` units the names agree; then the first one ends, or has the smaller unit. */
  predicate DiffersAt(a: Text, b: Text, k: nat) {
    k <= |a| && k < |b| && a[..k] == b[..k] && (k == |a| || a[k] < b[k])
  }

  /** Ascending by code units. */
  predicate Before(a: Text, b: Text) {
    exists k: nat | k <= |a| :: DiffersAt(a, b, k)
  }

  lemma {:induction false} LessIsBefore(a: Text, b: Text)
    ensures Less(a, b) <==> Before(a, b)
    decreases |a|
  {
    if Less(a, b) {
      if a == [] || a[0] < b[0] {
        assert DiffersAt(a, b, 0);
      } else {
        LessIsBefore(a[1..], b[1..]);
        var k: nat :| k <= |a[1..]| && DiffersAt(a[1..], b[1..], k);
        assert a[..k + 1] == [a[0]] + a[1..][..k] && b[..k + 1] == [b[0]] + b[1..][..k];
        assert DiffersAt(a, b, k + 1);
      }
    }
    if Before(a, b) {
      var k: nat :| k <= |a| && DiffersAt(a, b, k);
      if k > 0 {
        assert a[..k][0] == a[0] && b[..k][0] == b[0];
        assert a[1..][..k - 1] == a[..k][1..] && b[1..][..k - 1] == b[..k][1..];
        assert DiffersAt(a[1..], b[1..], k - 1);
        LessIsBefore(a[1..], b[1..]);
      }
    }
  }

  // ---------------------------------------------------------------- sorting

  function Insert<T>(m: Keyed<T>, s: seq<Keyed<T>>): seq<Keyed<T>> {
    if s == [] || !Less(s[0].key, m.key) then [m] + s else [s[0]] + Insert(m, s[1..])
  }

  function Sort<T>(s: seq<Keyed<T>>): seq<Keyed<T>> {
    if s == [] then [] else Insert(s[0], Sort(s[1..]))
  }

  /** In the order of their keys, which are all different. */
  predicate Sorted<T(!new)>(s: seq<Keyed<T>>) {
    forall i, j | 0 <= i < j < |s| :: Less(s[i].key, s[j].key)
  }

  predicate Distinct<T(!new)>(s: seq<Keyed<T>>) {
    forall i, j | 0 <= i < j < |s| :: s[i].key != s[j].key
  }

  predicate Among<T(==)>(x: seq<Keyed<T>>, y: seq<Keyed<T>>) {
    forall m | m in x :: m in y
  }

  lemma {:induction false} InsertKeeps<T>(m: Keyed<T>, s: seq<Keyed<T>>)
    ensures |Insert(m, s)| == |s| + 1
    ensures forall x :: x in Insert(m, s) <==> x == m || x in s
    decreases |s|
  {
    if s != [] && Less(s[0].key, m.key) {
      InsertKeeps(m, s[1..]);
      assert s == [s[0]] + s[1..];
    }
  }

  lemma {:induction false} InsertSorts<T(!new)>(m: Keyed<T>, s: seq<Keyed<T>>)
    requires Sorted(s) && forall x | x in s :: x.key != m.key
    ensures Sorted(Insert(m, s))
    decreases |s|
  {
    if s != [] {
      LessIsTotal(s[0].key, m.key);
      if Less(s[0].key, m.key) {
        InsertSorts(m, s[1..]);
        InsertKeeps(m, s[1..]);
        FirstBelow(s[0], Insert(m, s[1..]));
      } else {
        forall x | x in s
          ensures Less(m.key, x.key)
        {
          if x != s[0] {
            LessIsTransitive(m.key, s[0].key, x.key);
          }
        }
        FirstBelow(m, s);
      }
    }
  }

  lemma FirstBelow<T(!new)>(m: Keyed<T>, s: seq<Keyed<T>>)
    requires Sorted(s) && forall x | x in s :: Less(m.key, x.key)
    ensures Sorted([m] + s)
  {
  }

  lemma {:induction false} SortKeeps<T>(s: seq<Keyed<T>>)
    ensures |Sort(s)| == |s|
    ensures forall x :: x in Sort(s) <==> x in s
    decreases |s|
  {
    if s != [] {
      SortKeeps(s[1..]);
      InsertKeeps(s[0], Sort(s[1..]));
      assert s == [s[0]] + s[1..];
    }
  }

  lemma {:induction false} SortSorts<T(!new)>(s: seq<Keyed<T>>)
    requires Distinct(s)
    ensures Sorted(Sort(s))
    decreases |s|
  {
    if s != [] {
      SortSorts(s[1..]);
      SortKeeps(s[1..]);
      InsertSorts(s[0], Sort(s[1..]));
    }
  }

  lemma LessIsAsymmetric(a: Text, b: Text)
    requires Less(a, b)
    ensures !Less(b, a)
  {
    LessIsStrict(a);
    if Less(b, a) {
      LessIsTransitive(a, b, a);
    }
  }

  /** There is only one sorted order of the same members. */
  lemma {:induction false} SortedIsUnique<T(!new)>(s: seq<Keyed<T>>, t: seq<Keyed<T>>)
    requires Sorted(s) && Sorted(t) && |s| == |t| && Among(s, t) && Among(t, s)
    ensures s == t
    decreases |s|
  {
    if s != [] {
      assert s[0] in t && t[0] in s;
      FirstIsLeast(s, t[0]);
      FirstIsLeast(t, s[0]);
      if Less(s[0].key, t[0].key) {
        LessIsAsymmetric(s[0].key, t[0].key);
      }
      assert s[0] == t[0];
      forall x
        ensures x in s[1..] <==> x in t[1..]
      {
        TailMembers(s, x);
        TailMembers(t, x);
      }
      SortedIsUnique(s[1..], t[1..]);
      assert s == [s[0]] + s[1..] && t == [t[0]] + t[1..];
    }
  }

  lemma FirstIsLeast<T(!new)>(s: seq<Keyed<T>>, x: Keyed<T>)
    requires Sorted(s) && x in s
    ensures x == s[0] || Less(s[0].key, x.key)
  {
  }

  lemma TailMembers<T(!new)>(s: seq<Keyed<T>>, x: Keyed<T>)
    requires Sorted(s) && s != []
    ensures x in s[1..] <==> x in s && x != s[0]
  {
    assert s == [s[0]] + s[1..];
    LessIsStrict(s[0].key);
  }

  // ---------------------------------------------------------------- the canonical text

  function Join(parts: seq<Text>): Text {
    if parts == [] then [] else if |parts| == 1 then parts[0] else parts[0] + [Comma] + Join(parts[1..])
  }

  function Rendered(fields: seq<Keyed<Text>>): seq<Text> {
    if fields == [] then []
    else [Quote(fields[0].key) + [Colon] + fields[0].value] + Rendered(fields[1..])
  }

  /** `canonicalJson`; none where it throws. */
  function Canonical(v: Json): Option<Text>
    decreases v
  {
    match v
    case Null => Some(NullText)
    case Bool(b) => Some(if b then TrueText else FalseText)
    case Number(token) => Some(token)
    case Str(chars) => Some(Quote(chars))
    case Arr(items) =>
      var parts := Texts(items);
      if parts.None? then None else Some([Open] + Join(parts.value) + [Close])
    case Obj(members) =>
      var fields := Fields(members);
      if fields.None? then None else Some([OpenBrace] + Join(Rendered(Sort(fields.value))) + [CloseBrace])
    case Foreign => None
  }

  function Texts(items: seq<Json>): Option<seq<Text>>
    decreases items
  {
    if items == [] then Some([])
    else
      var first := Canonical(items[0]);
      var rest := Texts(items[1..]);
      if first.None? || rest.None? then None else Some([first.value] + rest.value)
  }

  function Fields(members: seq<Keyed<Json>>): Option<seq<Keyed<Text>>>
    decreases members
  {
    if members == [] then Some([])
    else
      var first := Canonical(members[0].value);
      var rest := Fields(members[1..]);
      if first.None? || rest.None? then None else Some([Keyed(members[0].key, first.value)] + rest.value)
  }

  // ---------------------------------------------------------------- the sorted value behind it

  /** The same value with all members sorted. */
  function Normal(v: Json): Json
    decreases v
  {
    match v
    case Arr(items) => Arr(NormalItems(items))
    case Obj(members) => Obj(Sort(NormalMembers(members)))
    case _ => v
  }

  function NormalItems(items: seq<Json>): (r: seq<Json>)
    ensures |r| == |items|
    ensures forall i | 0 <= i < |r| :: r[i] == Normal(items[i])
    decreases items
  {
    if items == [] then [] else [Normal(items[0])] + NormalItems(items[1..])
  }

  function NormalMembers(members: seq<Keyed<Json>>): (r: seq<Keyed<Json>>)
    ensures |r| == |members|
    ensures forall i | 0 <= i < |r| :: r[i] == Keyed(members[i].key, Normal(members[i].value))
    decreases members
  {
    if members == [] then [] else [Keyed(members[0].key, Normal(members[0].value))] + NormalMembers(members[1..])
  }

  lemma {:induction false} NormalIsSound(v: Json)
    requires Sound(v)
    ensures Sound(Normal(v))
    decreases v
  {
    match v
    case Arr(items) =>
      forall i | 0 <= i < |items|
        ensures Sound(NormalItems(items)[i])
      {
        NormalIsSound(items[i]);
      }
    case Obj(members) =>
      var named := NormalMembers(members);
      forall i | 0 <= i < |members|
        ensures Sound(named[i].value)
      {
        NormalIsSound(members[i].value);
      }
      assert Distinct(named);
      SortKeeps(named);
      SortSorts(named);
      SortedIsDistinct(Sort(named));
      forall i | 0 <= i < |named|
        ensures Sound(Sort(named)[i].value)
      {
        assert Sort(named)[i] in Sort(named);
        var j :| 0 <= j < |named| && named[j] == Sort(named)[i];
      }
    case _ =>
  }

  lemma SortedIsDistinct<T(!new)>(s: seq<Keyed<T>>)
    requires Sorted(s)
    ensures Distinct(s)
  {
    forall i, j | 0 <= i < j < |s|
      ensures s[i].key != s[j].key
    {
      LessIsStrict(s[i].key);
    }
  }

  // ---------------------------------------------------------------- canonical means printed in normal order

  function Printed(items: seq<Json>): (r: seq<Text>) {
    if items == [] then [] else [Print(items[0])] + Printed(items[1..])
  }

  function PrintedFields(members: seq<Keyed<Json>>): (r: seq<Keyed<Text>>) {
    if members == [] then []
    else [Keyed(members[0].key, Print(members[0].value))] + PrintedFields(members[1..])
  }

  lemma {:induction false} JoinedItems(items: seq<Json>)
    requires items != []
    ensures Join(Printed(items)) + [Close] == Print(items[0]) + Items(items[1..])
    decreases |items|
  {
    var parts := Printed(items);
    if |items| > 1 {
      JoinedItems(items[1..]);
      assert parts[1..] == Printed(items[1..]);
      Regrouped(parts[0] + [Comma], Join(parts[1..]), [Close]);
      Regrouped(parts[0], [Comma], Join(parts[1..]) + [Close]);
    }
  }

  lemma {:induction false} JoinedMembers(members: seq<Keyed<Json>>)
    requires members != []
    ensures Join(Rendered(PrintedFields(members))) + [CloseBrace] == Field(members[0]) + Members(members[1..])
    decreases |members|
  {
    var fields := PrintedFields(members);
    var parts := Rendered(fields);
    Regrouped(Quote(members[0].key), [Colon], Print(members[0].value));
    assert parts[0] == Field(members[0]);
    assert fields[1..] == PrintedFields(members[1..]);
    if |members| > 1 {
      JoinedMembers(members[1..]);
      assert parts[1..] == Rendered(fields[1..]);
      Regrouped(parts[0] + [Comma], Join(parts[1..]), [CloseBrace]);
      Regrouped(parts[0], [Comma], Join(parts[1..]) + [CloseBrace]);
    }
  }

  lemma {:induction false} InsertCommutes(m: Keyed<Json>, s: seq<Keyed<Json>>)
    ensures PrintedFields(Insert(m, s)) == Insert(Keyed(m.key, Print(m.value)), PrintedFields(s))
    decreases |s|
  {
    if s == [] || !Less(s[0].key, m.key) {
      assert ([m] + s)[1..] == s;
    } else {
      InsertCommutes(m, s[1..]);
      assert Insert(m, s)[1..] == Insert(m, s[1..]);
      assert PrintedFields(s)[1..] == PrintedFields(s[1..]);
    }
  }

  lemma {:induction false} SortCommutes(s: seq<Keyed<Json>>)
    ensures PrintedFields(Sort(s)) == Sort(PrintedFields(s))
    decreases |s|
  {
    if s != [] {
      SortCommutes(s[1..]);
      InsertCommutes(s[0], Sort(s[1..]));
      assert PrintedFields(s)[1..] == PrintedFields(s[1..]);
    }
  }

  lemma PrintedArray(items: seq<Json>)
    ensures [Open] + Join(Printed(items)) + [Close] == Print(Arr(items))
  {
    if items != [] {
      JoinedItems(items);
    }
    Regrouped([Open], Join(Printed(items)), [Close]);
  }

  lemma PrintedObject(members: seq<Keyed<Json>>)
    ensures [OpenBrace] + Join(Rendered(PrintedFields(members))) + [CloseBrace] == Print(Obj(members))
  {
    if members != [] {
      JoinedMembers(members);
    }
    Regrouped([OpenBrace], Join(Rendered(PrintedFields(members))), [CloseBrace]);
  }

  /** The canonical text is the sorted value printed in order; it is refused where something is not JSON. */
  lemma {:induction false} CanonicalIsPrinted(v: Json)
    ensures Canonical(v) == if Printable(v) then Some(Print(Normal(v))) else None
    decreases v, 1
  {
    match v
    case Arr(items) =>
      TextsArePrinted(items);
      PrintedArray(NormalItems(items));
    case Obj(members) =>
      FieldsArePrinted(members);
      var named := NormalMembers(members);
      SortCommutes(named);
      SortKeeps(named);
      PrintedObject(Sort(named));
    case _ =>
  }

  lemma {:induction false} TextsArePrinted(items: seq<Json>)
    ensures Texts(items) == if Printable(Arr(items)) then Some(Printed(NormalItems(items))) else None
    decreases items, 0
  {
    if items != [] {
      CanonicalIsPrinted(items[0]);
      TextsArePrinted(items[1..]);
      assert NormalItems(items)[1..] == NormalItems(items[1..]);
      assert Printable(Arr(items)) <==> Printable(items[0]) && Printable(Arr(items[1..]));
    }
  }

  lemma {:induction false} FieldsArePrinted(members: seq<Keyed<Json>>)
    ensures Fields(members) == if Printable(Obj(members)) then Some(PrintedFields(NormalMembers(members))) else None
    decreases members, 0
  {
    if members != [] {
      CanonicalIsPrinted(members[0].value);
      FieldsArePrinted(members[1..]);
      assert NormalMembers(members)[1..] == NormalMembers(members[1..]);
      assert Printable(Obj(members)) <==> Printable(members[0].value) && Printable(Obj(members[1..]));
    }
  }

  // ---------------------------------------------------------------- equal up to member order

  ghost predicate Same(v: Json, w: Json)
    decreases v
  {
    match v
    case Arr(items) =>
      w.Arr? && |items| == |w.items| && forall i | 0 <= i < |items| :: Same(items[i], w.items[i])
    case Obj(members) =>
      && w.Obj? && |members| == |w.members|
      && forall i | 0 <= i < |members| :: HasSame(members[i], w.members)
    case _ => v == w
  }

  /** Some member has the same key and the same value. */
  ghost predicate HasSame(m: Keyed<Json>, members: seq<Keyed<Json>>)
    decreases m
  {
    exists j | 0 <= j < |members| :: m.key == members[j].key && Same(m.value, members[j].value)
  }

  lemma {:induction false} NormalDecides(v: Json, w: Json)
    requires WellFormed(v) && WellFormed(w)
    ensures Normal(v) == Normal(w) <==> Same(v, w)
    decreases v
  {
    match v
    case Arr(items) =>
      if w.Arr? && |items| == |w.items| {
        forall i | 0 <= i < |items|
          ensures NormalItems(items)[i] == NormalItems(w.items)[i] <==> Same(items[i], w.items[i])
        {
          NormalDecides(items[i], w.items[i]);
        }
      }
    case Obj(members) =>
      if w.Obj? {
        forall i, j | 0 <= i < |members| && 0 <= j < |w.members|
          ensures Normal(members[i].value) == Normal(w.members[j].value) <==> Same(members[i].value, w.members[j].value)
        {
          NormalDecides(members[i].value, w.members[j].value);
        }
        MembersDecide(members, w.members);
      }
    case _ =>
  }

  lemma MembersDecide(a: seq<Keyed<Json>>, b: seq<Keyed<Json>>)
    requires Distinct(a) && Distinct(b)
    requires forall i, j | 0 <= i < |a| && 0 <= j < |b| ::
               Normal(a[i].value) == Normal(b[j].value) <==> Same(a[i].value, b[j].value)
    ensures Sort(NormalMembers(a)) == Sort(NormalMembers(b)) <==>
            |a| == |b| && forall i | 0 <= i < |a| :: HasSame(a[i], b)
  {
    var x, y := NormalMembers(a), NormalMembers(b);
    AmongDecides(a, b);
    if Sort(x) == Sort(y) {
      SortedAmong(x, y);
    } else if |x| == |y| && Among(x, y) {
      DistinctNormal(a);
      DistinctNormal(b);
      SameSort(x, y);
    }
  }

  lemma DistinctNormal(a: seq<Keyed<Json>>)
    requires Distinct(a)
    ensures Distinct(NormalMembers(a))
  {
  }

  lemma AmongDecides(a: seq<Keyed<Json>>, b: seq<Keyed<Json>>)
    requires forall i, j | 0 <= i < |a| && 0 <= j < |b| ::
               Normal(a[i].value) == Normal(b[j].value) <==> Same(a[i].value, b[j].value)
    ensures Among(NormalMembers(a), NormalMembers(b)) <==> forall i | 0 <= i < |a| :: HasSame(a[i], b)
  {
    var x, y := NormalMembers(a), NormalMembers(b);
    forall i | 0 <= i < |a|
      ensures HasSame(a[i], b) <==> x[i] in y
    {
      HasSameNormal(a, b, i);
    }
    if Among(x, y) {
      forall i | 0 <= i < |a|
        ensures HasSame(a[i], b)
      {
        assert x[i] in x;
      }
    }
  }

  lemma HasSameNormal(a: seq<Keyed<Json>>, b: seq<Keyed<Json>>, i: nat)
    requires i < |a|
    requires forall j | 0 <= j < |b| :: Normal(a[i].value) == Normal(b[j].value) <==> Same(a[i].value, b[j].value)
    ensures HasSame(a[i], b) <==> NormalMembers(a)[i] in NormalMembers(b)
  {
    var x, y := NormalMembers(a), NormalMembers(b);
    if HasSame(a[i], b) {
      var j :| 0 <= j < |b| && a[i].key == b[j].key && Same(a[i].value, b[j].value);
      assert y[j] == x[i];
    }
    if x[i] in y {
      var j :| 0 <= j < |y| && y[j] == x[i];
      assert a[i].key == b[j].key && Same(a[i].value, b[j].value);
    }
  }

  lemma {:induction false} SortHas<T>(s: seq<Keyed<T>>, m: Keyed<T>)
    ensures m in Sort(s) <==> m in s
    decreases |s|
  {
    if s != [] {
      SortHas(s[1..], m);
      InsertKeeps(s[0], Sort(s[1..]));
      assert s == [s[0]] + s[1..];
    }
  }

  lemma SortAmong<T>(x: seq<Keyed<T>>, y: seq<Keyed<T>>)
    requires Among(x, y)
    ensures Among(Sort(x), Sort(y))
  {
    forall m | m in Sort(x)
      ensures m in Sort(y)
    {
      SortHas(x, m);
      SortHas(y, m);
    }
  }

  lemma SameSort<T(!new)>(x: seq<Keyed<T>>, y: seq<Keyed<T>>)
    requires Distinct(x) && Distinct(y) && |x| == |y| && Among(x, y)
    ensures Sort(x) == Sort(y)
  {
    Covers(x, y);
    SortAmong(x, y);
    SortAmong(y, x);
    SortKeeps(x);
    SortKeeps(y);
    SortSorts(x);
    SortSorts(y);
    SortedIsUnique(Sort(x), Sort(y));
  }

  lemma SortedAmong<T>(x: seq<Keyed<T>>, y: seq<Keyed<T>>)
    requires Sort(x) == Sort(y)
    ensures |x| == |y| && Among(x, y)
  {
    SortKeeps(x);
    SortKeeps(y);
    forall m | m in x
      ensures m in y
    {
      assert m in Sort(x);
    }
  }

  function Elements<T>(s: seq<T>): set<T> {
    set x | x in s
  }

  lemma {:induction false} DistinctCount<T(!new)>(s: seq<Keyed<T>>)
    requires Distinct(s)
    ensures |Elements(s)| == |s|
    decreases |s|
  {
    if s != [] {
      DistinctCount(s[1..]);
      assert s[0] !in s[1..];
      assert s == [s[0]] + s[1..];
      assert Elements(s) == {s[0]} + Elements(s[1..]);
    }
  }

  /** As many distinct members, all of them in `t`, are all of `t`. */
  lemma Covers<T(!new)>(s: seq<Keyed<T>>, t: seq<Keyed<T>>)
    requires Distinct(s) && Distinct(t) && |s| == |t| && Among(s, t)
    ensures Among(t, s)
  {
    DistinctCount(s);
    DistinctCount(t);
    assert Elements(s) <= Elements(t);
    SubsetOfSameSize(Elements(s), Elements(t));
    forall x | x in t
      ensures x in s
    {
      assert x in Elements(t);
    }
  }

  lemma SubsetOfSameSize<T>(a: set<T>, b: set<T>)
    requires a <= b && |a| == |b|
    ensures a == b
  {
    assert |b - a| == |b| - |a|;
  }

  /** Two values have the same canonical text exactly if they are equal up to the order of members. */
  lemma CanonicalDecides(v: Json, w: Json)
    requires Sound(v) && Sound(w)
    ensures Canonical(v).Some? && Canonical(w).Some?
    ensures Canonical(v) == Canonical(w) <==> Same(v, w)
  {
    CanonicalIsPrinted(v);
    CanonicalIsPrinted(w);
    NormalIsSound(v);
    NormalIsSound(w);
    if Print(Normal(v)) == Print(Normal(w)) {
      assert Print(Normal(v)) + [] == Print(Normal(w)) + [];
      PrintInjective(Normal(v), Normal(w), [], []);
    }
    NormalDecides(v, w);
  }

  // ---------------------------------------------------------------- the text, read back

  /** In every object the names ascend. */
  predicate Ascending(v: Json)
    decreases v
  {
    match v
    case Arr(items) => forall i | 0 <= i < |items| :: Ascending(items[i])
    case Obj(members) =>
      && (forall i, j | 0 <= i < j < |members| :: Before(members[i].key, members[j].key))
      && (forall i | 0 <= i < |members| :: Ascending(members[i].value))
    case _ => true
  }

  lemma {:induction false} NormalAscends(v: Json)
    requires Sound(v)
    ensures Ascending(Normal(v))
    decreases v
  {
    match v
    case Arr(items) =>
      forall i | 0 <= i < |items|
        ensures Ascending(NormalItems(items)[i])
      {
        NormalAscends(items[i]);
      }
    case Obj(members) =>
      var named := NormalMembers(members);
      forall i | 0 <= i < |members|
        ensures Ascending(named[i].value)
      {
        NormalAscends(members[i].value);
      }
      assert Distinct(named);
      SortAscends(named);
      SortKeeps(named);
      forall i | 0 <= i < |named|
        ensures Ascending(Sort(named)[i].value)
      {
        assert Sort(named)[i] in Sort(named);
        var j :| 0 <= j < |named| && named[j] == Sort(named)[i];
      }
    case _ =>
  }

  /** Members with different names come out ascending by code units. */
  lemma SortAscends<T(!new)>(s: seq<Keyed<T>>)
    requires Distinct(s)
    ensures forall i, j | 0 <= i < j < |Sort(s)| :: Before(Sort(s)[i].key, Sort(s)[j].key)
  {
    SortSorts(s);
    forall i, j | 0 <= i < j < |Sort(s)|
      ensures Before(Sort(s)[i].key, Sort(s)[j].key)
    {
      LessIsBefore(Sort(s)[i].key, Sort(s)[j].key);
    }
  }

  lemma {:induction false} NormalIsSame(v: Json)
    requires Sound(v)
    ensures Same(v, Normal(v))
  {
    NormalIsSound(v);
    NormalTwice(v);
    NormalDecides(v, Normal(v));
  }

  lemma {:induction false} NormalTwice(v: Json)
    requires Sound(v)
    ensures Normal(Normal(v)) == Normal(v)
    decreases v
  {
    match v
    case Arr(items) =>
      var named := NormalItems(items);
      forall i | 0 <= i < |items|
        ensures NormalItems(named)[i] == named[i]
      {
        NormalTwice(items[i]);
      }
      assert NormalItems(named) == named;
    case Obj(members) =>
      var named := NormalMembers(members);
      var sorted := Sort(named);
      assert Distinct(named);
      SortKeeps(named);
      SortSorts(named);
      forall i | 0 <= i < |sorted|
        ensures NormalMembers(sorted)[i] == sorted[i]
      {
        assert sorted[i] in sorted;
        var j :| 0 <= j < |named| && named[j] == sorted[i];
        NormalTwice(members[j].value);
      }
      assert NormalMembers(sorted) == sorted;
      SortedStays(sorted);
    case _ =>
  }

  lemma SortedStays<T(!new)>(s: seq<Keyed<T>>)
    requires Sorted(s)
    ensures Sort(s) == s
  {
    SortedIsDistinct(s);
    SortSorts(s);
    SortKeeps(s);
    hide Sort, Sorted;
    forall m
      ensures m in Sort(s) <==> m in s
    {
      SortHas(s, m);
    }
    SortedIsUnique(Sort(s), s);
  }

  /**
   * The canonical text is JSON without blanks: read back it gives the same value up to the order of
   * members, and in every object the names ascend by code units.
   */
  lemma CanonicalReads(v: Json)
    requires Sound(v)
    ensures Canonical(v).Some?
    ensures var r := ReadValue(Canonical(v).value);
      r.Some? && r.value.1 == [] && Same(v, r.value.0) && Ascending(r.value.0)
  {
    CanonicalIsPrinted(v);
    NormalIsSound(v);
    NormalAscends(v);
    NormalIsSame(v);
    PrintReads(Normal(v), []);
    assert Print(Normal(v)) + [] == Print(Normal(v));
  }
}
