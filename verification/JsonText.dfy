/**
 * JSON texts as sequences of UTF-16 code units: quoted strings, and values printed in the order in
 * which their members stand. Printing is shown to lose nothing.
 */
module JsonText {
  import opened Options

  type Unit = x: int | 0 <= x < 0x1_0000

  type Text = seq<Unit>

  datatype Keyed<T> = Keyed(key: Text, value: T)

  /**
   * A value. A number is identified with its printed form; `Foreign` stands for whatever has no
   * canonical text: non-finite numbers and values outside JSON.
   */
  datatype Json =
    | Null
    | Bool(value: bool)
    | Number(token: Text)
    | Str(chars: Text)
    | Arr(items: seq<Json>)
    | Obj(members: seq<Keyed<Json>>)
    | Foreign

  const Comma: Unit := 44
  const Colon: Unit := 58
  const Mark: Unit := 34
  const Backslash: Unit := 92

  // ---------------------------------------------------------------- strings

  predicate High(u: Unit) {
    0xD800 <= u < 0xDC00
  }

  predicate Low(u: Unit) {
    0xDC00 <= u < 0xE000
  }

  predicate StartsWithPair(s: Text) {
    |s| >= 2 && High(s[0]) && Low(s[1])
  }

  function HexDigit(d: nat): Unit
    requires d < 16
  {
    if d < 10 then 48 + d else 87 + d
  }

  function HexValue(u: Unit): int {
    if 48 <= u <= 57 then u - 48 else u - 87
  }

  function Hex4(u: Unit): Text {
    [HexDigit(u / 16 / 16 / 16), HexDigit(u / 16 / 16 % 16), HexDigit(u / 16 % 16), HexDigit(u % 16)]
  }

  /** The letter that follows a backslash for a unit with a short escape. */
  function ShortEscape(u: Unit): Option<Unit> {
    if u == 8 then Some(98) else if u == 9 then Some(116) else if u == 10 then Some(110)
    else if u == 12 then Some(102) else if u == 13 then Some(114)
    else if u == Mark then Some(Mark) else if u == Backslash then Some(Backslash) else None
  }

  function EscapeOne(u: Unit): Text {
    if ShortEscape(u).Some? then [Backslash, ShortEscape(u).value]
    else if u < 32 || High(u) || Low(u) then [Backslash, 117] + Hex4(u)
    else [u]
  }

  /** A surrogate pair stands for itself, a lone surrogate is escaped. */
  function Escape(s: Text): Text {
    if s == [] then []
    else if StartsWithPair(s) then s[..2] + Escape(s[2..])
    else EscapeOne(s[0]) + Escape(s[1..])
  }

  function Quote(s: Text): Text {
    [Mark] + Escape(s) + [Mark]
  }

  function Unshort(u: Unit): Unit {
    if u == 98 then 8 else if u == 116 then 9 else if u == 110 then 10 else if u == 102 then 12
    else if u == 114 then 13 else u
  }

  /** Reads a string's characters up to the closing mark; gives them and what follows. */
  function Unescape(x: Text): (r: Option<(Text, Text)>)
    ensures r.Some? ==> |r.value.1| < |x|
    decreases |x|
  {
    if x == [] then None
    else if x[0] == Mark then Some(([], x[1..]))
    else if x[0] != Backslash then After([x[0]], Unescape(x[1..]))
    else if |x| < 2 then None
    else if x[1] != 117 then After([Unshort(x[1])], Unescape(x[2..]))
    else if |x| < 6 then None
    else
      var u := HexValue(x[2]) * 4096 + HexValue(x[3]) * 256 + HexValue(x[4]) * 16 + HexValue(x[5]);
      if 0 <= u < 0x1_0000 then After([u], Unescape(x[6..])) else None
  }

  function After(s: Text, rest: Option<(Text, Text)>): Option<(Text, Text)> {
    if rest.None? then None else Some((s + rest.value.0, rest.value.1))
  }

  lemma HexDigitReads(d: nat)
    requires d < 16
    ensures HexValue(HexDigit(d)) == d && HexUnit(HexDigit(d))
  {
  }

  lemma Hex4Reads(u: Unit)
    ensures var h := Hex4(u);
      && u == HexValue(h[0]) * 4096 + HexValue(h[1]) * 256 + HexValue(h[2]) * 16 + HexValue(h[3])
      && forall i | 0 <= i < 4 :: HexUnit(h[i])
  {
    var p := u / 16;
    var q := p / 16;
    HexDigitReads(q / 16);
    HexDigitReads(q % 16);
    HexDigitReads(p % 16);
    HexDigitReads(u % 16);
    assert u == 16 * p + u % 16 && p == 16 * q + p % 16 && q == 16 * (q / 16) + q % 16;
  }

  lemma UnescapeShort(c: Unit, more: Text)
    requires c != 117
    ensures Unescape([Backslash, c] + more) == After([Unshort(c)], Unescape(more))
  {
    assert ([Backslash, c] + more)[2..] == more;
  }

  lemma UnescapeHex(h: Text, u: Unit, more: Text)
    requires |h| == 4
    requires u == HexValue(h[0]) * 4096 + HexValue(h[1]) * 256 + HexValue(h[2]) * 16 + HexValue(h[3])
    ensures Unescape([Backslash, 117] + h + more) == After([u], Unescape(more))
  {
    var x := [Backslash, 117] + h + more;
    assert x[0] == Backslash && x[1] == 117;
    assert x[2] == h[0] && x[3] == h[1] && x[4] == h[2] && x[5] == h[3];
    assert x[6..] == more;
  }

  lemma UnescapeOne(u: Unit, more: Text)
    ensures Unescape(EscapeOne(u) + more) == After([u], Unescape(more))
  {
    if ShortEscape(u).Some? {
      UnescapeShort(ShortEscape(u).value, more);
    } else if u < 32 || High(u) || Low(u) {
      Hex4Reads(u);
      UnescapeHex(Hex4(u), u, more);
    } else {
      Literal(u, more);
    }
  }

  lemma Literal(u: Unit, more: Text)
    requires u != Mark && u != Backslash
    ensures Unescape([u] + more) == After([u], Unescape(more))
  {
    assert ([u] + more)[1..] == more;
  }

  lemma AfterAfter(s: Text, t: Text, rest: Option<(Text, Text)>)
    ensures After(s, After(t, rest)) == After(s + t, rest)
  {
    if rest.Some? {
      assert s + (t + rest.value.0) == s + t + rest.value.0;
    }
  }

  lemma Regrouped(a: Text, b: Text, c: Text)
    ensures a + b + c == a + (b + c)
  {
  }

  lemma {:induction false} UnescapeEscaped(s: Text, rest: Text)
    ensures Unescape(Escape(s) + ([Mark] + rest)) == Some((s, rest))
    decreases |s|
  {
    var tail := [Mark] + rest;
    if s == [] {
      var x := Escape(s) + tail;
      assert x[0] == Mark && x[1..] == rest;
    } else if StartsWithPair(s) {
      UnescapeEscaped(s[2..], rest);
      var more := Escape(s[2..]) + tail;
      Literal(s[1], more);
      Literal(s[0], [s[1]] + more);
      AfterAfter([s[0]], [s[1]], Unescape(more));
      Regrouped(s[..2], Escape(s[2..]), tail);
      assert s[..2] + more == [s[0]] + ([s[1]] + more);
      assert [s[0]] + [s[1]] + s[2..] == s;
    } else {
      UnescapeEscaped(s[1..], rest);
      UnescapeOne(s[0], Escape(s[1..]) + tail);
      Regrouped(EscapeOne(s[0]), Escape(s[1..]), tail);
      assert [s[0]] + s[1..] == s;
    }
  }

  lemma QuotedTail(s: Text, r: Text)
    ensures Quote(s) + r == [Mark] + (Escape(s) + ([Mark] + r))
  {
  }

  /** Of two quoted strings with something behind, equal texts mean equal strings and equal rests. */
  lemma QuoteInjective(s: Text, t: Text, r: Text, q: Text)
    requires Quote(s) + r == Quote(t) + q
    ensures s == t && r == q
  {
    QuotedTail(s, r);
    QuotedTail(t, q);
    Strip([Mark], [Mark], Escape(s) + ([Mark] + r), Escape(t) + ([Mark] + q));
    UnescapeEscaped(s, r);
    UnescapeEscaped(t, q);
  }

  /**
   * RFC 8259, section 7: between the quotation marks no control character occurs, and a quotation
   * mark or a backslash only inside an escape.
   */
  ghost predicate Escaped(x: Text)
    decreases |x|
  {
    x != [] ==>
      if x[0] == Backslash then
        || (|x| >= 2 && x[1] in {Mark, Backslash, 98, 102, 110, 114, 116} && Escaped(x[2..]))
        || (|x| >= 6 && x[1] == 117 && (forall i | 2 <= i < 6 :: HexUnit(x[i])) && Escaped(x[6..]))
      else x[0] >= 32 && x[0] != Mark && Escaped(x[1..])
  }

  predicate HexUnit(u: Unit) {
    48 <= u <= 57 || 97 <= u <= 102
  }

  lemma EscapedOne(u: Unit, more: Text)
    requires Escaped(more)
    ensures Escaped(EscapeOne(u) + more)
  {
    var x := EscapeOne(u) + more;
    if ShortEscape(u).Some? {
      assert x[2..] == more;
    } else if u < 32 || High(u) || Low(u) {
      Hex4Reads(u);
      assert forall i | 2 <= i < 6 :: x[i] == Hex4(u)[i - 2];
      assert x[6..] == more;
    } else {
      assert x[1..] == more;
    }
  }

  lemma EscapedLiteral(u: Unit, more: Text)
    requires Escaped(more) && u >= 32 && u != Mark && u != Backslash
    ensures Escaped([u] + more)
  {
    assert ([u] + more)[1..] == more;
  }

  lemma {:induction false} EscapeIsEscaped(s: Text)
    ensures Escaped(Escape(s))
    decreases |s|
  {
    if s != [] {
      if StartsWithPair(s) {
        EscapeIsEscaped(s[2..]);
        EscapedLiteral(s[1], Escape(s[2..]));
        EscapedLiteral(s[0], [s[1]] + Escape(s[2..]));
        assert Escape(s) == [s[0]] + ([s[1]] + Escape(s[2..]));
      } else {
        EscapeIsEscaped(s[1..]);
        EscapedOne(s[0], Escape(s[1..]));
      }
    }
  }

  // ---------------------------------------------------------------- printing in order

  predicate NumberUnit(u: Unit) {
    48 <= u <= 57 || u == 45 || u == 43 || u == 46 || u == 101 || u == 69
  }

  /** What a printed number looks like: it starts with a digit or a minus sign. */
  predicate NumberToken(t: Text) {
    t != [] && (48 <= t[0] <= 57 || t[0] == 45) && forall i | 0 <= i < |t| :: NumberUnit(t[i])
  }

  const NullText: Text := [110, 117, 108, 108]
  const TrueText: Text := [116, 114, 117, 101]
  const FalseText: Text := [102, 97, 108, 115, 101]
  const Open: Unit := 91
  const Close: Unit := 93
  const OpenBrace: Unit := 123
  const CloseBrace: Unit := 125

  function Print(v: Json): Text
    decreases v
  {
    match v
    case Null => NullText
    case Bool(b) => if b then TrueText else FalseText
    case Number(token) => token
    case Str(chars) => Quote(chars)
    case Arr(items) => [Open] + (if items == [] then [Close] else Print(items[0]) + Items(items[1..]))
    case Obj(members) =>
      [OpenBrace] + (if members == [] then [CloseBrace] else Field(members[0]) + Members(members[1..]))
    case Foreign => []
  }

  /** The items after the first, and the bracket. */
  function Items(items: seq<Json>): Text
    decreases items
  {
    if items == [] then [Close] else [Comma] + (Print(items[0]) + Items(items[1..]))
  }

  function Field(m: Keyed<Json>): Text
    decreases m
  {
    Quote(m.key) + ([Colon] + Print(m.value))
  }

  function Members(members: seq<Keyed<Json>>): Text
    decreases members
  {
    if members == [] then [CloseBrace] else [Comma] + (Field(members[0]) + Members(members[1..]))
  }

  // ---------------------------------------------------------------- printing loses nothing

  predicate WellFormed(v: Json)
    decreases v
  {
    match v
    case Number(token) => NumberToken(token)
    case Arr(items) => forall i | 0 <= i < |items| :: WellFormed(items[i])
    case Obj(members) =>
      && (forall i | 0 <= i < |members| :: WellFormed(members[i].value))
      && (forall i, j | 0 <= i < j < |members| :: members[i].key != members[j].key)
    case _ => true
  }

  predicate Printable(v: Json)
    decreases v
  {
    match v
    case Foreign => false
    case Arr(items) => forall i | 0 <= i < |items| :: Printable(items[i])
    case Obj(members) => forall i | 0 <= i < |members| :: Printable(members[i].value)
    case _ => true
  }

  predicate Sound(v: Json) {
    WellFormed(v) && Printable(v)
  }

  /** What may follow a value inside a text: nothing, a comma or a closing bracket. */
  predicate Delimited(r: Text) {
    r == [] || r[0] == Comma || r[0] == Close || r[0] == CloseBrace
  }

  // ---------------------------------------------------------------- reading

  predicate Spells(x: Text, word: string) {
    |word| <= |x| && forall i | 0 <= i < |word| :: x[i] == word[i] as int
  }

  /** The text goes on with this unit. */
  predicate Goes(x: Text, u: Unit) {
    x != [] && x[0] == u
  }

  /** How many units of a number stand in front. */
  function NumberSpan(x: Text): (k: nat)
    ensures k <= |x|
  {
    if x == [] || !NumberUnit(x[0]) then 0 else 1 + NumberSpan(x[1..])
  }

  /** A value in the grammar of RFC 8259, without blanks, at the beginning of a text; and what follows it. */
  function ReadValue(x: Text): (r: Option<(Json, Text)>)
    ensures r.Some? ==> |r.value.1| < |x|
    decreases |x|, 0
  {
    if x == [] then None
    else if x[0] == 34 then
      var chars := Unescape(x[1..]);
      if chars.None? then None else Some((Str(chars.value.0), chars.value.1))
    else if Spells(x, "null") then Some((Null, x[4..]))
    else if Spells(x, "true") then Some((Bool(true), x[4..]))
    else if Spells(x, "false") then Some((Bool(false), x[5..]))
    else if x[0] == 91 && Goes(x[1..], 93) then Some((Arr([]), x[2..]))
    else if x[0] == 123 && Goes(x[1..], 125) then Some((Obj([]), x[2..]))
    else if x[0] == 91 then
      var items := ReadItems(x[1..]);
      if items.None? then None else Some((Arr(items.value.0), items.value.1))
    else if x[0] == 123 then
      var members := ReadMembers(x[1..]);
      if members.None? then None else Some((Obj(members.value.0), members.value.1))
    else if 48 <= x[0] <= 57 || x[0] == 45 then
      Some((Number(x[..NumberSpan(x)]), x[NumberSpan(x)..]))
    else None
  }

  /** Values up to the closing bracket. */
  function ReadItems(x: Text): (r: Option<(seq<Json>, Text)>)
    ensures r.Some? ==> |r.value.1| < |x|
    decreases |x|, 1
  {
    var first := ReadValue(x);
    if first.None? then None
    else
      var rest := first.value.1;
      if Goes(rest, 93) then Some(([first.value.0], rest[1..]))
      else if Goes(rest, 44) then
        var more := ReadItems(rest[1..]);
        if more.None? then None else Some(([first.value.0] + more.value.0, more.value.1))
      else None
  }

  /** Names and values up to the closing brace. */
  function ReadMembers(x: Text): (r: Option<(seq<Keyed<Json>>, Text)>)
    ensures r.Some? ==> |r.value.1| < |x|
    decreases |x|, 1
  {
    var first := ReadMember(x);
    if first.None? then None
    else
      var rest := first.value.1;
      if Goes(rest, 125) then Some(([first.value.0], rest[1..]))
      else if Goes(rest, 44) then
        var more := ReadMembers(rest[1..]);
        if more.None? then None else Some(([first.value.0] + more.value.0, more.value.1))
      else None
  }

  function ReadMember(x: Text): (r: Option<(Keyed<Json>, Text)>)
    ensures r.Some? ==> |r.value.1| < |x|
    decreases |x|, 0
  {
    if !Goes(x, 34) then None
    else
      var key := Unescape(x[1..]);
      if key.None? || !Goes(key.value.1, 58) then None
      else
        var value := ReadValue(key.value.1[1..]);
        if value.None? then None else Some((Keyed(key.value.0, value.value.0), value.value.1))
  }

  // ---------------------------------------------------------------- reading undoes printing

  lemma Strip(a: Text, b: Text, x: Text, y: Text)
    requires |a| == |b| && a + x == b + y
    ensures a == b && x == y
  {
    assert (a + x)[..|a|] == a && (b + y)[..|b|] == b;
    assert (a + x)[|a|..] == x && (b + y)[|b|..] == y;
  }

  lemma Behind(a: Text, x: Text)
    ensures (a + x)[..|a|] == a && (a + x)[|a|..] == x
  {
  }

  lemma {:induction false} SpanOfToken(t: Text, r: Text)
    requires (forall i | 0 <= i < |t| :: NumberUnit(t[i])) && Delimited(r)
    ensures NumberSpan(t + r) == |t|
    decreases |t|
  {
    if t == [] {
      assert t + r == r;
    } else {
      assert (t + r)[1..] == t[1..] + r;
      SpanOfToken(t[1..], r);
    }
  }

  /** The first unit of a printed value, told by its kind. */
  lemma FirstUnit(v: Json, r: Text)
    requires Sound(v)
    ensures var x := Print(v) + r;
      && Print(v) != [] && x[0] == Print(v)[0]
      && (v.Str? ==> x[0] == 34) && (v.Arr? ==> x[0] == 91) && (v.Obj? ==> x[0] == 123)
      && (v.Number? ==> 48 <= x[0] <= 57 || x[0] == 45)
      && (v.Null? || v.Bool? ==> 97 < x[0] < 123)
      && x[0] != 93 && x[0] != 125
  {
  }

  lemma NotAWord(x: Text)
    requires x != []
    ensures (x[0] != 110 ==> !Spells(x, "null")) && (x[0] != 116 ==> !Spells(x, "true")) && (x[0] != 102 ==> !Spells(x, "false"))
  {
    assert "null"[0] as int == 110 && "true"[0] as int == 116 && "false"[0] as int == 102;
  }

  lemma WordReads(v: Json, r: Text)
    requires v.Null? || v.Bool?
    ensures ReadValue(Print(v) + r) == Some((v, r))
  {
    hide ReadItems, ReadMembers, Unescape;
    Behind(Print(v), r);
    var x := Print(v) + r;
    NotAWord(x);
    assert v.Null? ==> Spells(x, "null");
    assert v == Bool(true) ==> Spells(x, "true");
    assert v == Bool(false) ==> Spells(x, "false");
  }

  lemma NumberReads(v: Json, r: Text)
    requires v.Number? && Sound(v) && Delimited(r)
    ensures ReadValue(Print(v) + r) == Some((v, r))
  {
    hide ReadItems, ReadMembers, Unescape, Spells, NumberSpan;
    Behind(v.token, r);
    NotAWord(v.token + r);
    SpanOfToken(v.token, r);
  }

  lemma StrReads(v: Json, r: Text)
    requires v.Str?
    ensures ReadValue(Print(v) + r) == Some((v, r))
  {
    hide ReadItems, ReadMembers, Unescape, Spells, Escape;
    QuotedTail(v.chars, r);
    UnescapeEscaped(v.chars, r);
    Behind([Mark], Escape(v.chars) + ([Mark] + r));
  }

  lemma EmptyReads(v: Json, r: Text)
    requires v == Arr([]) || v == Obj([])
    ensures ReadValue(Print(v) + r) == Some((v, r))
  {
    hide ReadItems, ReadMembers, Unescape, Spells;
    Behind(Print(v), r);
    NotAWord(Print(v) + r);
  }

  lemma ArrayReads(x: Text, items: seq<Json>, r: Text)
    requires ReadItems(x) == Some((items, r)) && x != [] && x[0] != 93
    ensures ReadValue([Open] + x) == Some((Arr(items), r))
  {
    hide ReadItems, ReadMembers, Unescape, Spells;
    Behind([Open], x);
    NotAWord([Open] + x);
  }

  lemma ObjectReads(x: Text, members: seq<Keyed<Json>>, r: Text)
    requires ReadMembers(x) == Some((members, r)) && x != [] && x[0] == 34
    ensures ReadValue([OpenBrace] + x) == Some((Obj(members), r))
  {
    hide ReadItems, ReadMembers, Unescape, Spells;
    Behind([OpenBrace], x);
    NotAWord([OpenBrace] + x);
  }

  /** Whatever is printed, with a delimiter behind it, reads back as the same value and the same rest. */
  lemma {:induction false} PrintReads(v: Json, r: Text)
    requires Sound(v) && Delimited(r)
    ensures ReadValue(Print(v) + r) == Some((v, r))
    decreases v, 1
  {
    hide ReadValue, ReadItems, ReadMembers;
    match v
    case Str(_) => StrReads(v, r);
    case Number(_) => NumberReads(v, r);
    case Arr(items) =>
      if items == [] {
        EmptyReads(v, r);
      } else {
        var x := Print(items[0]) + Items(items[1..]);
        Regrouped([Open], x, r);
        Regrouped(Print(items[0]), Items(items[1..]), r);
        FirstUnit(items[0], Items(items[1..]) + r);
        ItemsRead(items, r);
        ArrayReads(x + r, items, r);
      }
    case Obj(members) =>
      if members == [] {
        EmptyReads(v, r);
      } else {
        var x := Field(members[0]) + Members(members[1..]);
        Regrouped([OpenBrace], x, r);
        MembersRead(members, r);
        ObjectReads(x + r, members, r);
      }
    case _ => WordReads(v, r);
  }

  lemma ItemsGoOn(x: Text, first: Json, more: Text, tail: seq<Json>, r: Text)
    requires ReadValue(x) == Some((first, [Comma] + more)) && ReadItems(more) == Some((tail, r))
    ensures ReadItems(x) == Some(([first] + tail, r))
  {
    hide ReadValue;
    Behind([Comma], more);
  }

  lemma MembersGoOn(x: Text, first: Keyed<Json>, more: Text, tail: seq<Keyed<Json>>, r: Text)
    requires ReadMember(x) == Some((first, [Comma] + more)) && ReadMembers(more) == Some((tail, r))
    ensures ReadMembers(x) == Some(([first] + tail, r))
  {
    hide ReadMember;
    Behind([Comma], more);
  }

  lemma ListsEnd(x: Text, item: Json, member: Keyed<Json>, r: Text)
    ensures ReadValue(x) == Some((item, [Close] + r)) ==> ReadItems(x) == Some(([item], r))
    ensures ReadMember(x) == Some((member, [CloseBrace] + r)) ==> ReadMembers(x) == Some(([member], r))
  {
    hide ReadValue, ReadMember;
    Behind([Close], r);
    Behind([CloseBrace], r);
  }

  lemma {:induction false} ItemsRead(items: seq<Json>, r: Text)
    requires items != [] && forall i | 0 <= i < |items| :: Sound(items[i])
    ensures ReadItems(Print(items[0]) + Items(items[1..]) + r) == Some((items, r))
    decreases items, 0
  {
    hide ReadValue, ReadItems, Print;
    var x, tail := Print(items[0]) + Items(items[1..]) + r, items[1..];
    Regrouped(Print(items[0]), Items(tail), r);
    PrintReads(items[0], Items(tail) + r);
    if tail == [] {
      ListsEnd(x, items[0], Keyed([], items[0]), r);
    } else {
      var more := Print(tail[0]) + Items(tail[1..]);
      ItemsRead(tail, r);
      Regrouped([Comma], more, r);
      ItemsGoOn(x, items[0], more + r, tail, r);
    }
    assert items == [items[0]] + tail && [items[0]] + [] == [items[0]];
  }

  lemma {:induction false} MembersRead(members: seq<Keyed<Json>>, r: Text)
    requires members != [] && forall i | 0 <= i < |members| :: Sound(members[i].value)
    ensures ReadMembers(Field(members[0]) + Members(members[1..]) + r) == Some((members, r))
    decreases members, 1
  {
    hide ReadMember, ReadMembers, Field;
    var x, tail := Field(members[0]) + Members(members[1..]) + r, members[1..];
    Regrouped(Field(members[0]), Members(tail), r);
    FieldReads(members[0], Members(tail) + r);
    if tail == [] {
      ListsEnd(x, members[0].value, members[0], r);
    } else {
      var more := Field(tail[0]) + Members(tail[1..]);
      MembersRead(tail, r);
      Regrouped([Comma], more, r);
      MembersGoOn(x, members[0], more + r, tail, r);
    }
    assert members == [members[0]] + tail && [members[0]] + [] == [members[0]];
  }

  lemma {:induction false} FieldReads(m: Keyed<Json>, r: Text)
    requires Sound(m.value) && Delimited(r)
    ensures ReadMember(Field(m) + r) == Some((m, r))
    decreases m, 0
  {
    var after := [Colon] + (Print(m.value) + r);
    Regrouped(Quote(m.key), [Colon] + Print(m.value), r);
    Regrouped([Colon], Print(m.value), r);
    QuotedTail(m.key, after);
    UnescapeEscaped(m.key, after);
    Behind([Mark], Escape(m.key) + ([Mark] + after));
    Behind([Colon], Print(m.value) + r);
    PrintReads(m.value, r);
  }

  /** So of two printed values with a delimiter behind, equal texts mean equal values and equal rests. */
  lemma PrintInjective(v: Json, w: Json, r: Text, q: Text)
    requires Sound(v) && Sound(w) && Delimited(r) && Delimited(q)
    requires Print(v) + r == Print(w) + q
    ensures v == w && r == q
  {
    PrintReads(v, r);
    PrintReads(w, q);
  }

  // ---------------------------------------------------------------- what is escaped, and how

  /** A unit that JSON text can hold as it is. */
  predicate Plain(u: Unit) {
    u >= 32 && u != 34 && u != 92 && !(0xD800 <= u < 0xE000)
  }

  /** Plain units and surrogate pairs one after the other. */
  predicate Standing(s: Text) {
    s == []
    || (Plain(s[0]) && Standing(s[1..]))
    || (|s| > 1 && 0xD800 <= s[0] < 0xDC00 <= s[1] < 0xE000 && Standing(s[2..]))
  }

  /** Nothing else is escaped: such a text stands for itself. */
  lemma {:induction false} PlainIsItself(s: Text)
    requires Standing(s)
    ensures Escape(s) == s
    decreases |s|
  {
    if s != [] {
      if Plain(s[0]) {
        PlainIsItself(s[1..]);
        assert s == [s[0]] + s[1..];
      } else {
        PlainIsItself(s[2..]);
        assert s == s[..2] + s[2..];
      }
    }
  }

  /** No surrogate without its partner. */
  predicate Paired(s: Text) {
    s == []
    || (!(0xD800 <= s[0] < 0xE000) && Paired(s[1..]))
    || (|s| > 1 && 0xD800 <= s[0] < 0xDC00 <= s[1] < 0xE000 && Paired(s[2..]))
  }

  lemma EscapeOneIsAscii(u: Unit)
    ensures forall i | 0 <= i < |EscapeOne(u)| :: !(0xD800 <= EscapeOne(u)[i] < 0xE000)
  {
    Hex4Reads(u);
  }

  /** Lone surrogates are escaped, so the text can be encoded in UTF-8. */
  lemma {:induction false} EscapeIsPaired(s: Text)
    ensures Paired(Escape(s))
    decreases |s|
  {
    if s != [] {
      if StartsWithPair(s) {
        EscapeIsPaired(s[2..]);
        assert (s[..2] + Escape(s[2..]))[2..] == Escape(s[2..]);
      } else {
        EscapeIsPaired(s[1..]);
        EscapeOneIsAscii(s[0]);
        AsciiInFront(EscapeOne(s[0]), Escape(s[1..]));
      }
    }
  }

  lemma {:induction false} AsciiInFront(a: Text, s: Text)
    requires Paired(s) && forall i | 0 <= i < |a| :: !(0xD800 <= a[i] < 0xE000)
    ensures Paired(a + s)
    decreases |a|
  {
    if a == [] {
      assert a + s == s;
    } else {
      assert (a + s)[1..] == a[1..] + s;
      AsciiInFront(a[1..], s);
    }
  }

  predicate Is(t: Text, word: string) {
    |t| == |word| && Spells(t, word)
  }

  /** The short escapes, and four lower-case hexadecimal digits for everything else. */
  lemma EscapesAre(u: Unit)
    ensures Is(EscapeOne(8), "\\b") && Is(EscapeOne(9), "\\t") && Is(EscapeOne(10), "\\n") && Is(EscapeOne(12), "\\f")
    ensures Is(EscapeOne(13), "\\r") && Is(EscapeOne(34), "\\\"") && Is(EscapeOne(92), "\\\\")
    ensures !Plain(u) && u !in {8, 9, 10, 12, 13, 34, 92} ==>
              |EscapeOne(u)| == 6 && Spells(EscapeOne(u), "\\u") && forall i | 2 <= i < 6 :: HexUnit(EscapeOne(u)[i])
  {
    Hex4Reads(u);
  }
}
