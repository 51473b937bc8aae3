/** The canonical JSON text that audit events are hashed over. */
module AuditJson {
  import opened Text

  predicate NumberChar(c: char) { IsDigit(c) || c == '-' || c == '+' || c == '.' || c == 'e' }

  predicate IsNumeral(s: string) { s != "" && (s[0] == '-' || IsDigit(s[0])) && forall i :: 0 <= i < |s| ==> NumberChar(s[i]) }

  /** A number, by the text it is printed as; -0 is printed as 0. */
  type Numeral = s: string | IsNumeral(s) witness "0"

  /** A list or an object, by the text it is printed as. */
  type NestedText = s: string | s != "" && (s[0] == '[' || s[0] == '{') witness "[]"

  /** A value inside metadata. A number that is not finite is printed, and stored, as null. */
  datatype Value = Str(s: string) | Num(text: Numeral) | Bool(b: bool) | Null | Nested(json: NestedText)

  type Metadata = seq<(string, Value)>

  /** A value that is neither a string, a list nor an object, by the text it is printed as. */
  type BareText = s: string | s != "" && s[0] != '"' && s[0] != '{' witness "null"

  /** A property of an event object: absent, a string, an object, a list, or anything else. Events
      hold an object under `metadata`; a stored row may hold any of these there. */
  datatype Field = Undefined | Of(text: string) | Meta(entries: Metadata) | Items(items: seq<Value>) | Bare(json: BareText)

  /** An object as the runtime holds it: properties in insertion order. */
  type Object = seq<(string, Field)>

  predicate Unique<V>(o: seq<(string, V)>) { forall i, j :: 0 <= i < j < |o| ==> o[i].0 != o[j].0 }

  predicate WellFormed(o: Object) {
    Unique(o) && forall i :: 0 <= i < |o| ==> Distinct(o[i].1)
  }

  // ---- what the rebuilt metadata holds ----

  /** Assigning a property of this name to a fresh object sets none. */
  const PROTO := "__proto__"

  function Kept(m: Metadata): (r: Metadata)
    ensures forall x :: x in r <==> x in m && x.0 != PROTO
    ensures Unique(m) ==> Unique(r)
  {
    if m == [] then []
    else
      var (front, last) := (m[..|m| - 1], m[|m| - 1]);
      assert m == front + [last];
      assert Unique(m) ==> forall x :: x in front ==> x.0 != last.0;
      Kept(front) + if last.0 == PROTO then [] else [last]
  }

  /** A list, as the object it is copied into: its positions become the keys. */
  function Indexed(items: seq<Value>): (r: Metadata)
    ensures |r| == |items| && forall i :: 0 <= i < |r| ==> r[i] == (Decimal(i), items[i])
  { seq(|items|, i requires 0 <= i < |items| => (Decimal(i), items[i])) }

  lemma IndexedUnique(items: seq<Value>)
    ensures Unique(Indexed(items)) && forall x :: x in Indexed(items) ==> x.0 != PROTO
  {
    var m := Indexed(items);
    hide Decimal;
    forall i, j | 0 <= i < j < |m| ensures m[i].0 != m[j].0 { if Decimal(i) == Decimal(j) { DecimalInjective(i, j); } }
    forall i | 0 <= i < |m| ensures m[i].0 != PROTO { assert IsDigit(m[i].0[0]); }
  }

  /** Copied member by member into a fresh object. */
  predicate Composite(f: Field) { f.Meta? || f.Items? }

  function Members(f: Field): Metadata
    requires Composite(f)
  { if f.Meta? then Kept(f.entries) else Indexed(f.items) }

  predicate Distinct(f: Field) { f.Meta? ==> Unique(f.entries) }

  lemma MembersUnique(f: Field)
    requires Composite(f) && Distinct(f)
    ensures Unique(Members(f))
  {
    if f.Items? { IndexedUnique(f.items); }
  }

  // ---- enumeration order of a rebuilt object ----

  /** Array-index keys are enumerated before all others, whatever the insertion order. */
  predicate IsIndex(k: string) {
    AllDigits(k) && 0 < |k| <= 10 && (k[0] == '0' ==> |k| == 1) && DigitsValue(k) < 0xffff_ffff
  }

  /** Order in which the properties of an object filled over sorted keys are written out:
      index keys by number, then the rest by code unit. */
  predicate KeyBefore(a: string, b: string) {
    if IsIndex(a) != IsIndex(b) then IsIndex(a)
    else if IsIndex(a) && |a| != |b| then |a| < |b|
    else Less(a, b)
  }

  lemma KeyOrder(a: string, b: string)
    ensures KeyBefore(a, b) || a == b || KeyBefore(b, a)
    ensures !(KeyBefore(a, b) && KeyBefore(b, a)) && !KeyBefore(a, a)
  {
    hide IsIndex, Less;
    LessTotal(a, b);
    LessTotal(a, a);
  }

  lemma KeyTransitive(a: string, b: string, c: string)
    requires KeyBefore(a, b) && KeyBefore(b, c)
    ensures KeyBefore(a, c)
  {
    hide IsIndex, Less;
    if Less(a, b) && Less(b, c) { LessTransitive(a, b, c); }
  }

  ghost predicate Ordered<V>(o: seq<(string, V)>) { forall i, j :: 0 <= i < j < |o| ==> KeyBefore(o[i].0, o[j].0) }

  function Insert<V(!new)>(o: seq<(string, V)>, e: (string, V)): (r: seq<(string, V)>)
    ensures |r| == |o| + 1
    ensures forall x :: x in r <==> x in o || x == e
  {
    if o == [] || KeyBefore(o[|o| - 1].0, e.0) then o + [e]
    else
      assert o == o[..|o| - 1] + [o[|o| - 1]];
      Insert(o[..|o| - 1], e) + [o[|o| - 1]]
  }

  function SortKeys<V(!new)>(o: seq<(string, V)>): (r: seq<(string, V)>)
    ensures |r| == |o|
    ensures forall x :: x in r <==> x in o
  {
    if o == [] then []
    else
      assert o == o[..|o| - 1] + [o[|o| - 1]];
      Insert(SortKeys(o[..|o| - 1]), o[|o| - 1])
  }

  lemma {:induction false} InsertOrdered<V(!new)>(o: seq<(string, V)>, e: (string, V))
    requires Ordered(o) && forall i :: 0 <= i < |o| ==> o[i].0 != e.0
    ensures Ordered(Insert(o, e))
  {
    hide KeyBefore;
    var r := Insert(o, e);
    if o != [] {
      var z := o[|o| - 1];
      KeyOrder(z.0, e.0);
      if KeyBefore(z.0, e.0) {
        forall i | 0 <= i < |o| ensures KeyBefore(o[i].0, e.0) {
          if i < |o| - 1 { KeyTransitive(o[i].0, z.0, e.0); }
        }
      } else {
        InsertOrdered(o[..|o| - 1], e);
        var t := Insert(o[..|o| - 1], e);
        forall i | 0 <= i < |t| ensures KeyBefore(t[i].0, z.0) {
          assert t[i] in t;
          if t[i] != e { assert t[i] in o[..|o| - 1]; }
        }
      }
    }
  }

  lemma {:induction false} SortKeysOrdered<V(!new)>(o: seq<(string, V)>)
    requires Unique(o)
    ensures Ordered(SortKeys(o))
  {
    if o != [] {
      var p := o[..|o| - 1];
      SortKeysOrdered(p);
      forall i | 0 <= i < |SortKeys(p)| ensures SortKeys(p)[i].0 != o[|o| - 1].0 {
        assert SortKeys(p)[i] in p;
      }
      InsertOrdered(SortKeys(p), o[|o| - 1]);
    }
  }

  /** Ordered lists with the same entries are the same list. */
  lemma {:induction false} OrderedUnique<V(!new)>(o: seq<(string, V)>, p: seq<(string, V)>)
    requires Ordered(o) && Ordered(p)
    requires forall x :: x in o <==> x in p
    ensures o == p
  {
    hide KeyBefore;
    assert forall i :: 0 <= i < |o| ==> o[i] in p;
    assert forall i :: 0 <= i < |p| ==> p[i] in o;
    if o != [] && p != [] {
      KeyOrder(o[0].0, p[0].0);
      assert o[0] == p[0];
      KeyOrder(o[0].0, o[0].0);
      forall x ensures x in o[1..] <==> x in p[1..] {
        assert x in o[1..] ==> x in o && x != o[0];
        assert x in p[1..] ==> x in p && x != p[0];
        assert x in o && x != o[0] ==> x in o[1..];
        assert x in p && x != p[0] ==> x in p[1..];
      }
      OrderedUnique(o[1..], p[1..]);
    }
  }

  // ---- JSON text ----

  function HexChar(v: int): char
    requires 0 <= v < 16
  { if v < 10 then (v + '0' as int) as char else (v - 10 + 'a' as int) as char }

  function EscapeChar(c: char): (r: string)
    ensures |r| > 0
  {
    if c == '"' then "\\\""
    else if c == '\\' then "\\\\"
    else if c == '\U{08}' then "\\b"
    else if c == '\t' then "\\t"
    else if c == '\n' then "\\n"
    else if c == '\U{0C}' then "\\f"
    else if c == '\r' then "\\r"
    else if (c as int) < 0x20 then "\\u00" + [HexChar(c as int / 16), HexChar(c as int % 16)]
    else [c]
  }

  function Escape(s: string): string { if s == "" then "" else EscapeChar(s[0]) + Escape(s[1..]) }

  function Quote(s: string): string { ['"'] + Escape(s) + ['"'] }

  function PrintValue(v: Value): (r: string)
    ensures |r| > 0
  {
    match v
    case Str(s) => Quote(s)
    case Num(t) => t
    case Bool(b) => if b then "true" else "false"
    case Null => "null"
    case Nested(t) => t
  }

  function Member(k: string, value: string): string { Quote(k) + [':'] + value }

  function PrintMeta(m: Metadata): string {
    if m == [] then "}"
    else Member(m[0].0, PrintValue(m[0].1)) + (if |m| == 1 then "}" else [','] + PrintMeta(m[1..]))
  }

  predicate Printable(f: Field) { f.Of? || f.Meta? || f.Bare? }

  function PrintField(f: Field): string
    requires Printable(f)
  {
    match f
    case Of(t) => Quote(t)
    case Meta(m) => ['{'] + PrintMeta(m)
    case Bare(t) => t
  }

  predicate Defined(o: Object) { forall i :: 0 <= i < |o| ==> Printable(o[i].1) }

  function PrintObject(o: Object): string
    requires Defined(o)
  {
    if o == [] then "}"
    else Member(o[0].0, PrintField(o[0].1)) + (if |o| == 1 then "}" else [','] + PrintObject(o[1..]))
  }

  /** Members are copied into a fresh object over sorted keys; anything else is taken as it is. */
  function RebuiltField(f: Field): Field { if Composite(f) then Meta(SortKeys(Members(f))) else f }

  /** Undefined properties are skipped. */
  function Ordering(o: Object): (r: Object)
    ensures Defined(r)
  {
    if o == [] then [] else (if o[0].1.Undefined? then [] else [(o[0].0, RebuiltField(o[0].1))]) + Ordering(o[1..])
  }

  /** `canonicalAuditJson`. */
  function Canonical(o: Object): string { ['{'] + PrintObject(Ordering(SortKeys(o))) }

  // ---- the text determines the object ----

  lemma EscapeCharSplit(a: char, b: char, x: string, y: string)
    requires EscapeChar(a) + x == EscapeChar(b) + y
    ensures a == b && x == y
  {
    var (p, q) := (EscapeChar(a), EscapeChar(b));
    assert (p + x)[0] == p[0] && (q + y)[0] == q[0];
    if p[0] == '\\' {
      assert (p + x)[1] == p[1] && (q + y)[1] == q[1];
      if p[1] == 'u' {
        assert (p + x)[4] == p[4] && (q + y)[4] == q[4] && (p + x)[5] == p[5] && (q + y)[5] == q[5];
      }
    }
    assert p == q;
    assert x == (p + x)[|p|..] && y == (q + y)[|q|..];
  }

  lemma EscapeNotQuote(c: char)
    ensures EscapeChar(c)[0] != '"'
  {
  }

  lemma {:induction false} EscapeSplit(s: string, t: string, x: string, y: string)
    requires Escape(s) + (['"'] + x) == Escape(t) + (['"'] + y)
    ensures s == t && x == y
  {
    hide EscapeChar;
    var (l, r) := (Escape(s) + (['"'] + x), Escape(t) + (['"'] + y));
    if s != "" { EscapeNotQuote(s[0]); assert l[0] == EscapeChar(s[0])[0]; } else { assert l[0] == '"'; }
    if t != "" { EscapeNotQuote(t[0]); assert r[0] == EscapeChar(t[0])[0]; } else { assert r[0] == '"'; }
    if s == "" {
      assert x == l[1..] && y == r[1..];
    } else {
      assert l == EscapeChar(s[0]) + (Escape(s[1..]) + (['"'] + x));
      assert r == EscapeChar(t[0]) + (Escape(t[1..]) + (['"'] + y));
      EscapeCharSplit(s[0], t[0], Escape(s[1..]) + (['"'] + x), Escape(t[1..]) + (['"'] + y));
      EscapeSplit(s[1..], t[1..], x, y);
      assert s == [s[0]] + s[1..] && t == [t[0]] + t[1..];
    }
  }

  lemma QuoteSplit(s: string, t: string, x: string, y: string)
    requires Quote(s) + x == Quote(t) + y
    ensures s == t && x == y
  {
    hide Escape;
    assert Quote(s) + x == ['"'] + (Escape(s) + (['"'] + x));
    assert Quote(t) + y == ['"'] + (Escape(t) + (['"'] + y));
    assert (['"'] + (Escape(s) + (['"'] + x)))[1..] == Escape(s) + (['"'] + x);
    assert (['"'] + (Escape(t) + (['"'] + y)))[1..] == Escape(t) + (['"'] + y);
    EscapeSplit(s, t, x, y);
  }

  predicate Delimited(x: string) { |x| > 0 && (x[0] == ',' || x[0] == '}') }

  lemma FirstOf(d: string, x: string)
    requires |x| > 0
    ensures (d + x)[0] == if d == "" then x[0] else d[0]
  {
  }

  /** A numeral ends where the delimiter starts. */
  lemma {:induction false} NumeralSplit(d: string, e: string, x: string, y: string)
    requires (forall i :: 0 <= i < |d| ==> NumberChar(d[i])) && (forall i :: 0 <= i < |e| ==> NumberChar(e[i]))
    requires Delimited(x) && Delimited(y) && d + x == e + y
    ensures d == e && x == y
  {
    FirstOf(d, x);
    FirstOf(e, y);
    assert d == "" <==> e == "";
    if d == "" {
      assert d + x == x && e + y == y;
    } else {
      assert (d + x)[1..] == d[1..] + x && (e + y)[1..] == e[1..] + y;
      NumeralSplit(d[1..], e[1..], x, y);
      assert d == [d[0]] + d[1..] && e == [e[0]] + e[1..];
    }
  }

  /** A value printed at the head of a text is determined, if one side is known not to nest. */
  lemma ValueSplit(a: Value, b: Value, x: string, y: string)
    requires PrintValue(a) + x == PrintValue(b) + y && Delimited(x) && Delimited(y) && !b.Nested?
    ensures a == b && x == y
  {
    hide Quote;
    var (p, q) := (PrintValue(a), PrintValue(b));
    assert (p + x)[0] == p[0] && (q + y)[0] == q[0];
    ValueStart(a);
    ValueStart(b);
    match b
    case Str(t) => QuoteSplit(a.s, t, x, y);
    case Num(t) => NumeralSplit(a.text, t, x, y);
    case _ =>
      assert p == q;
      assert x == (p + x)[|p|..] && y == (q + y)[|q|..];
  }

  lemma ValueStart(v: Value)
    ensures var c := PrintValue(v)[0];
      match v
      case Str(_) => c == '"' case Num(_) => c == '-' || IsDigit(c) case Bool(b) => c == if b then 't' else 'f'
      case Null => c == 'n' case Nested(_) => c == '[' || c == '{'
  {
    hide Escape;
  }

  /** Every value is a string, a number, a boolean or null, as the event schema asks. */
  predicate Flat(m: Metadata) { forall i :: 0 <= i < |m| ==> !m[i].1.Nested? }

  lemma {:induction false} MetaSplit(m: Metadata, n: Metadata, x: string, y: string)
    requires PrintMeta(m) + x == PrintMeta(n) + y && Flat(n)
    ensures m == n && x == y
  {
    hide Quote, PrintValue;
    var (l, r) := (PrintMeta(m) + x, PrintMeta(n) + y);
    MetaStart(m, x);
    MetaStart(n, y);
    if m == [] {
      assert l[1..] == x && r[1..] == y;
    } else {
      var (s, t) := (MetaTail(m, x), MetaTail(n, y));
      MetaShape(m, x);
      MetaShape(n, y);
      QuoteSplit(m[0].0, n[0].0, [':'] + (PrintValue(m[0].1) + s), [':'] + (PrintValue(n[0].1) + t));
      assert ([':'] + (PrintValue(m[0].1) + s))[1..] == PrintValue(m[0].1) + s;
      assert ([':'] + (PrintValue(n[0].1) + t))[1..] == PrintValue(n[0].1) + t;
      ValueSplit(m[0].1, n[0].1, s, t);
      assert s[1..] == (if |m| == 1 then x else PrintMeta(m[1..]) + x);
      assert t[1..] == (if |n| == 1 then y else PrintMeta(n[1..]) + y);
      assert |m| == 1 <==> |n| == 1;
      if |m| > 1 { MetaSplit(m[1..], n[1..], x, y); }
      assert m == [m[0]] + m[1..] && n == [n[0]] + n[1..];
    }
  }

  function MetaTail(m: Metadata, x: string): (r: string)
    requires m != []
    ensures Delimited(r)
  { (if |m| == 1 then "}" else [','] + PrintMeta(m[1..])) + x }

  lemma MetaShape(m: Metadata, x: string)
    requires m != []
    ensures PrintMeta(m) + x == Quote(m[0].0) + ([':'] + (PrintValue(m[0].1) + MetaTail(m, x)))
  {
    var tail := if |m| == 1 then "}" else [','] + PrintMeta(m[1..]);
    var (q, v) := (Quote(m[0].0), PrintValue(m[0].1));
    assert PrintMeta(m) == q + [':'] + v + tail;
    assert MetaTail(m, x) == tail + x;
    hide Quote, PrintValue, PrintMeta, MetaTail;
    Regroup(q, v, tail, x);
  }

  lemma Regroup(q: string, v: string, tail: string, x: string)
    ensures (q + [':'] + v + tail) + x == q + ([':'] + (v + (tail + x)))
  {
  }

  lemma MetaStart(m: Metadata, x: string)
    ensures (PrintMeta(m) + x)[0] == if m == [] then '}' else '"'
  {
  }

  lemma MetaFieldSplit(m: Metadata, n: Metadata, x: string, y: string)
    requires ['{'] + PrintMeta(m) + x == ['{'] + PrintMeta(n) + y && Flat(n)
    ensures m == n && x == y
  {
    hide PrintMeta;
    assert (['{'] + PrintMeta(m) + x)[1..] == PrintMeta(m) + x;
    assert (['{'] + PrintMeta(n) + y)[1..] == PrintMeta(n) + y;
    MetaSplit(m, n, x, y);
  }

  /** The property of an event: a string, or flat metadata. */
  predicate PlainField(f: Field) { f.Undefined? || f.Of? || (f.Meta? && Flat(f.entries)) }

  predicate Plain(o: Object) { forall i :: 0 <= i < |o| ==> PlainField(o[i].1) }

  lemma FieldSplit(f: Field, g: Field, x: string, y: string)
    requires Printable(f) && Printable(g) && PlainField(g)
    requires PrintField(f) + x == PrintField(g) + y
    ensures f == g && x == y
  {
    hide Quote, PrintMeta;
    FieldStart(f, x);
    FieldStart(g, y);
    if g.Of? {
      QuoteSplit(f.text, g.text, x, y);
    } else {
      MetaFieldSplit(f.entries, g.entries, x, y);
    }
  }

  lemma FieldStart(f: Field, x: string)
    requires Printable(f)
    ensures var c := (PrintField(f) + x)[0]; if f.Of? then c == '"' else if f.Meta? then c == '{' else c != '"' && c != '{'
  {
    hide Escape, PrintMeta;
  }

  function ObjectTail(o: Object): (r: string)
    requires Defined(o) && o != []
    ensures Delimited(r)
  { if |o| == 1 then "}" else [','] + PrintObject(o[1..]) }

  lemma ObjectShape(o: Object)
    requires Defined(o) && o != []
    ensures PrintObject(o) == Quote(o[0].0) + ([':'] + (PrintField(o[0].1) + ObjectTail(o)))
  {
    hide Quote, PrintField;
  }

  lemma ObjectStart(o: Object)
    requires Defined(o)
    ensures |PrintObject(o)| > 0 && PrintObject(o)[0] == if o == [] then '}' else '"'
  {
    hide Escape, PrintField;
  }

  lemma HeadSplit(o: Object, p: Object)
    requires Defined(o) && Defined(p) && Plain(p) && o != [] && p != [] && PrintObject(o) == PrintObject(p)
    ensures o[0] == p[0] && ObjectTail(o) == ObjectTail(p)
  {
    hide Quote, PrintField, PrintObject, ObjectTail;
    var (s, t) := (ObjectTail(o), ObjectTail(p));
    ObjectShape(o);
    ObjectShape(p);
    QuoteSplit(o[0].0, p[0].0, [':'] + (PrintField(o[0].1) + s), [':'] + (PrintField(p[0].1) + t));
    assert ([':'] + (PrintField(o[0].1) + s))[1..] == PrintField(o[0].1) + s;
    assert ([':'] + (PrintField(p[0].1) + t))[1..] == PrintField(p[0].1) + t;
    FieldSplit(o[0].1, p[0].1, s, t);
  }

  lemma TailSplit(o: Object, p: Object)
    requires Defined(o) && Defined(p) && o != [] && p != [] && ObjectTail(o) == ObjectTail(p)
    ensures |o| == 1 <==> |p| == 1
    ensures |o| > 1 && |p| > 1 ==> PrintObject(o[1..]) == PrintObject(p[1..])
  {
    hide PrintObject;
    assert ObjectTail(o)[0] == if |o| == 1 then '}' else ',';
    assert ObjectTail(p)[0] == if |p| == 1 then '}' else ',';
    assert |o| > 1 ==> ObjectTail(o)[1..] == PrintObject(o[1..]);
    assert |p| > 1 ==> ObjectTail(p)[1..] == PrintObject(p[1..]);
  }

  lemma {:induction false} ObjectDetermined(o: Object, p: Object)
    requires Defined(o) && Defined(p) && Plain(p) && PrintObject(o) == PrintObject(p)
    ensures o == p
  {
    hide PrintObject, ObjectTail;
    ObjectStart(o);
    ObjectStart(p);
    if o != [] && p != [] {
      HeadSplit(o, p);
      TailSplit(o, p);
      assert |o| == 1 ==> o == [o[0]] && p == [p[0]];
      if |o| > 1 {
        ObjectDetermined(o[1..], p[1..]);
        assert o == [o[0]] + o[1..] && p == [p[0]] + p[1..];
      }
    }
  }

  // ---- canonical exactly up to insertion order ----

  /** The same properties with the same values, in whatever order they were inserted;
      undefined properties count as absent. */
  ghost predicate SameEntries<V(!new)>(m: seq<(string, V)>, n: seq<(string, V)>) { forall x :: x in m <==> x in n }

  /** Two objects or lists agree when their members do: a list counts as the object of its
      positions, and a property named `__proto__` does not count. */
  ghost predicate FieldsAgree(f: Field, g: Field) {
    if Composite(f) && Composite(g) then SameEntries(Members(f), Members(g)) else f == g
  }

  ghost predicate Within(o: Object, p: Object) {
    forall i :: 0 <= i < |o| && !o[i].1.Undefined? ==>
      exists j :: 0 <= j < |p| && p[j].0 == o[i].0 && FieldsAgree(o[i].1, p[j].1)
  }

  ghost predicate SameObject(o: Object, p: Object) { Within(o, p) && Within(p, o) }

  /** What Ordering makes of one property. */
  function Rebuilt(e: (string, Field)): (string, Field) { (e.0, RebuiltField(e.1)) }

  lemma {:induction false} OrderingIs(o: Object, x: (string, Field))
    ensures x in Ordering(o) <==> exists i :: 0 <= i < |o| && !o[i].1.Undefined? && x == Rebuilt(o[i])
  {
    if o != [] {
      OrderingIs(o[1..], x);
      if i :| 0 <= i < |o[1..]| && !o[1..][i].1.Undefined? && x == Rebuilt(o[1..][i]) {
        assert o[i + 1] == o[1..][i];
      }
      if i :| 0 <= i < |o| && !o[i].1.Undefined? && x == Rebuilt(o[i]) {
        if i > 0 { assert o[1..][i - 1] == o[i]; }
      }
    }
  }

  lemma {:induction false} OrderingOrdered(o: Object)
    requires Ordered(o)
    ensures Ordered(Ordering(o))
  {
    hide KeyBefore;
    if o != [] {
      OrderingOrdered(o[1..]);
      var r := Ordering(o[1..]);
      forall i | 0 <= i < |r| ensures KeyBefore(o[0].0, r[i].0) {
        OrderingIs(o[1..], r[i]);
      }
    }
  }

  lemma RebuiltAgrees(e: (string, Field), f: (string, Field))
    requires Distinct(e.1) && Distinct(f.1)
    ensures Rebuilt(e) == Rebuilt(f) <==> e.0 == f.0 && FieldsAgree(e.1, f.1)
  {
    if Composite(e.1) && Composite(f.1) {
      MembersUnique(e.1);
      MembersUnique(f.1);
      var (m, n) := (Members(e.1), Members(f.1));
      SortKeysOrdered(m);
      SortKeysOrdered(n);
      hide SortKeys, Members;
      if SameEntries(m, n) { OrderedUnique(SortKeys(m), SortKeys(n)); }
      if SortKeys(m) == SortKeys(n) { assert SameEntries(m, n); }
    }
  }

  lemma OrderingPlain(o: Object)
    requires Plain(o)
    ensures Plain(Ordering(SortKeys(o)))
  {
    hide SortKeys, RebuiltField;
    var r := Ordering(SortKeys(o));
    forall i | 0 <= i < |r| ensures PlainField(r[i].1) {
      SortedHas(o, r[i]);
      var j :| 0 <= j < |o| && !o[j].1.Undefined? && r[i] == Rebuilt(o[j]);
      RebuiltPlain(o[j].1);
    }
  }

  lemma RebuiltPlain(f: Field)
    requires PlainField(f)
    ensures PlainField(RebuiltField(f))
  {
    if f.Meta? {
      var m := SortKeys(Kept(f.entries));
      hide SortKeys, Kept;
      forall i | 0 <= i < |m| ensures !m[i].1.Nested? { assert m[i] in m && m[i] in f.entries; }
    }
  }

  /** Whatever o holds, an event p has its text exactly when both have the same properties, in any
      insertion order: the text ignores that order, in the object and in its metadata, it ignores a
      metadata property named `__proto__`, and it takes a list for the object of its positions. */
  lemma CanonicalExactly(o: Object, p: Object)
    requires WellFormed(o) && WellFormed(p) && Plain(p)
    ensures Canonical(o) == Canonical(p) <==> SameObject(o, p)
  {
    SortKeysOrdered(o);
    SortKeysOrdered(p);
    OrderingOrdered(SortKeys(o));
    OrderingOrdered(SortKeys(p));
    var (a, b) := (Ordering(SortKeys(o)), Ordering(SortKeys(p)));
    hide PrintObject, Ordering, SortKeys, WellFormed, Ordered, Within;
    if SameObject(o, p) {
      WithinCarries(o, p);
      WithinCarries(p, o);
      OrderedUnique(a, b);
    }
    if Canonical(o) == Canonical(p) {
      assert Canonical(o)[1..] == PrintObject(a) && Canonical(p)[1..] == PrintObject(b);
      OrderingPlain(p);
      ObjectDetermined(a, b);
      CarriesWithin(o, p);
      CarriesWithin(p, o);
    }
  }

  lemma SortedHas(o: Object, x: (string, Field))
    ensures x in Ordering(SortKeys(o)) <==> exists i :: 0 <= i < |o| && !o[i].1.Undefined? && x == Rebuilt(o[i])
  {
    hide SortKeys, Rebuilt;
    OrderingIs(SortKeys(o), x);
    var s := SortKeys(o);
    if i :| 0 <= i < |s| && !s[i].1.Undefined? && x == Rebuilt(s[i]) { assert s[i] in o; }
    if i :| 0 <= i < |o| && !o[i].1.Undefined? && x == Rebuilt(o[i]) { assert o[i] in s; }
  }

  ghost predicate Carries(o: Object, p: Object) {
    forall x: (string, Field) :: x in Ordering(SortKeys(o)) ==> x in Ordering(SortKeys(p))
  }

  lemma WithinCarries(o: Object, p: Object)
    requires WellFormed(o) && WellFormed(p) && Within(o, p)
    ensures Carries(o, p)
  {
    hide SortKeys, Ordering, FieldsAgree, Rebuilt;
    forall x: (string, Field) | x in Ordering(SortKeys(o)) ensures x in Ordering(SortKeys(p)) {
      SortedHas(o, x);
      SortedHas(p, x);
      var i :| 0 <= i < |o| && !o[i].1.Undefined? && x == Rebuilt(o[i]);
      var j :| 0 <= j < |p| && p[j].0 == o[i].0 && FieldsAgree(o[i].1, p[j].1);
      RebuiltAgrees(o[i], p[j]);
      AgreeDefined(o[i].1, p[j].1);
    }
  }

  lemma CarriesWithin(o: Object, p: Object)
    requires WellFormed(o) && WellFormed(p) && Carries(o, p)
    ensures Within(o, p)
  {
    hide SortKeys, Ordering, FieldsAgree, Rebuilt;
    forall i | 0 <= i < |o| && !o[i].1.Undefined?
      ensures exists j :: 0 <= j < |p| && p[j].0 == o[i].0 && FieldsAgree(o[i].1, p[j].1)
    {
      SortedHas(o, Rebuilt(o[i]));
      SortedHas(p, Rebuilt(o[i]));
      var j :| 0 <= j < |p| && !p[j].1.Undefined? && Rebuilt(o[i]) == Rebuilt(p[j]);
      RebuiltAgrees(o[i], p[j]);
    }
  }

  lemma AgreeDefined(f: Field, g: Field)
    requires FieldsAgree(f, g) && !f.Undefined?
    ensures !g.Undefined?
  {
  }
}
