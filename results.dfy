/** get_results.py: the table parser fed with the HTML of the results page,
    and fill_best, which finds for each of the 100 instance columns the best
    (least) value over all rows and how many rows reach it.

    The parser keeps its state in a Table (the header keys and the rows, in
    the order an OrderedDict keeps them) and in its own fields; each HTML
    callback is a method whose new state is stated by a function of the old
    one (StartTag, EndTag, Data). MyRunsParser is the same class with `runs`
    set: it names a row by the int in its "#" column instead of the text in
    its "User" column. An exception the source would raise (an index past
    the header, a row name int() refuses) sets `raised`, after which nothing
    changes: in the source it ends the parse. */
module Results {
  import opened Text

  /** A header key: an int when int() accepts the header word, the word
      itself otherwise. Row names are keys too: a string for TableParser,
      an int for MyRunsParser. */
  datatype Key = Col(n: int) | Label(s: string)

  /** A cell: None, an int (a numeric column), or the stripped text. */
  datatype Cell = Empty | Int(v: int) | Str(s: string)

  type Row = map<Key, Cell>

  datatype ParserState = Outside | THead | TBody

  /** A best value: math.inf or an int. */
  datatype Best = Inf | Fin(v: int)

  /** fill_best looks at the columns 1 to 100. */
  const Columns := 100

  // isint, sanitize_value and the header word

  /** str.isspace(): not empty, and only whitespace. */
  predicate IsBlank(s: string) {
    |s| > 0 && forall i :: 0 <= i < |s| ==> IsSpace(s[i])
  }

  /** isint(s): int() accepts s, around which it allows whitespace. */
  predicate IsInt(s: string) {
    ParseInt(Strip(s)).Some?
  }

  /** data.replace('\xa0', ' ').split(' ')[0]: the text before the first
      space or no-break space. */
  function HeadWord(data: string): (w: string)
    ensures |w| <= |data| && w == data[..|w|]
    ensures forall i :: 0 <= i < |w| ==> w[i] != ' ' && w[i] != '\U{A0}'
    ensures |w| < |data| ==> data[|w|] == ' ' || data[|w|] == '\U{A0}'
  {
    if data == [] || data[0] == ' ' || data[0] == '\U{A0}' then []
    else [data[0]] + HeadWord(data[1..])
  }

  /** The key a header word becomes (lines 127-131). */
  function KeyOf(w: string): (k: Key)
    ensures k.Col? <==> IsInt(w)
    ensures k.Label? ==> k.s == w && !IsInt(k.s)
    ensures k.Col? ==> ParseInt(Strip(w)) == Some(k.n)
  {
    if IsInt(w) then Col(ParseInt(Strip(w)).value) else Label(w)
  }

  /** val.replace(",", ""). */
  function NoCommas(s: string): (r: string)
    ensures |r| <= |s| && forall i :: 0 <= i < |r| ==> r[i] != ','
  {
    if s == [] then []
    else if s[0] == ',' then NoCommas(s[1..])
    else [s[0]] + NoCommas(s[1..])
  }

  /** The leading decimal digits of t. */
  function DigitPrefix(t: string): (p: string)
    ensures |p| <= |t| && p == t[..|p|] && AllDigits(p)
    ensures |p| < |t| ==> !IsDigit(t[|p|])
  {
    if t != [] && IsDigit(t[0]) then [t[0]] + DigitPrefix(t[1..]) else []
  }

  /** int(float(t)) for a decimal without sign: digits, then optionally a
      point and more digits, with a digit on one side of the point at
      least; the fraction is dropped. */
  function UnsignedDecimal(t: string): Option<nat> {
    var a := DigitPrefix(t);
    var rest := t[|a|..];
    if rest == [] then (if a == [] then None else Some(DigitsValue(a)))
    else if rest[0] == '.' && AllDigits(rest[1..]) && (a != [] || |rest| > 1) then Some(DigitsValue(a))
    else None
  }

  /** int(float(t)): an optional sign, then an unsigned decimal; int()
      truncates toward zero, so the sign applies to the integer part. */
  function Decimal(t: string): Option<int> {
    if t != [] && (t[0] == '-' || t[0] == '+') then
      match UnsignedDecimal(t[1..])
      case None => None
      case Some(m) => Some(if t[0] == '-' then -(m as int) else m)
    else
      match UnsignedDecimal(t)
      case None => None
      case Some(m) => Some(m)
  }

  /** sanitize_value(val): drop the thousands separators and read the
      number; None when float() refuses the text. */
  function Sanitize(val: string): Cell {
    match Decimal(Strip(NoCommas(val)))
    case None => Empty
    case Some(v) => Int(v)
  }

  /** The cell the text of a body row becomes under the key k: a number
      under an int key, the stripped text otherwise (lines 134-137). */
  function CellOf(k: Key, data: string): (c: Cell)
    ensures k.Col? ==> !c.Str?
    ensures k.Label? ==> c == Str(Strip(data))
  {
    if k.Col? then Sanitize(Strip(data)) else Str(Strip(data))
  }

  lemma {:induction false} NoCommasOf(s: string)
    requires forall i :: 0 <= i < |s| ==> s[i] != ','
    ensures NoCommas(s) == s
  {
    if s != [] {
      NoCommasOf(s[1..]);
    }
  }

  /** Dropping the separators twice is dropping them once: sanitize_value
      reads "1,234" as it reads "1234". */
  lemma SanitizeCommas(s: string)
    ensures Sanitize(NoCommas(s)) == Sanitize(s)
  {
    NoCommasOf(NoCommas(s));
  }

  lemma {:induction false} DigitPrefixOf(a: string, rest: string)
    requires AllDigits(a) && (rest == [] || !IsDigit(rest[0]))
    ensures DigitPrefix(a + rest) == a
  {
    if a != [] {
      assert (a + rest)[1..] == a[1..] + rest;
      DigitPrefixOf(a[1..], rest);
    } else {
      assert a + rest == rest;
    }
  }

  /** No separator and no whitespace. */
  predicate Plain(s: string) {
    forall k :: 0 <= k < |s| ==> s[k] != ',' && !IsSpace(s[k])
  }

  lemma DigitsPlain(s: string)
    requires AllDigits(s)
    ensures Plain(s)
  {
  }

  lemma PlainConcat(a: string, b: string)
    requires Plain(a) && Plain(b)
    ensures Plain(a + b)
  {
    forall k | 0 <= k < |a + b|
      ensures (a + b)[k] != ',' && !IsSpace((a + b)[k])
    {
      if k >= |a| {
        assert (a + b)[k] == b[k - |a|];
      }
    }
  }

  lemma StripPlain(s: string)
    requires s != [] && Plain(s)
    ensures Strip(s) == s
  {
    TrimLeftSpaceFree(s);
  }

  /** Text without separators or whitespace is read as it stands. */
  lemma SanitizePlain(s: string)
    requires s != [] && Plain(s)
    ensures Sanitize(s) == match Decimal(s) case None => Empty case Some(v) => Int(v)
  {
    NoCommasOf(s);
    StripPlain(s);
  }

  lemma UnsignedWhole(d: string)
    requires d != [] && AllDigits(d)
    ensures UnsignedDecimal(d) == Some(DigitsValue(d))
  {
    DigitPrefixOf(d, []);
    assert d + [] == d;
  }

  lemma UnsignedFraction(d: string, f: string)
    requires d != [] && AllDigits(d) && AllDigits(f)
    ensures UnsignedDecimal(d + "." + f) == Some(DigitsValue(d))
  {
    DigitPrefixOf(d, "." + f);
    assert d + "." + f == d + ("." + f);
    assert (d + ("." + f))[|d|..] == "." + f;
  }

  lemma DecimalSigned(g: string)
    requires UnsignedDecimal(g).Some?
    ensures Decimal("-" + g) == Some(-(UnsignedDecimal(g).value as int))
  {
    assert ("-" + g)[1..] == g;
  }

  lemma DecimalUnsigned(u: string)
    requires u != [] && IsDigit(u[0]) && UnsignedDecimal(u).Some?
    ensures Decimal(u) == Some(UnsignedDecimal(u).value)
  {
  }

  lemma DecimalOfInt(i: int)
    ensures Decimal(IntToString(i)) == Some(i)
  {
    var m: nat := if i < 0 then -i else i;
    var d := NatToString(m);
    NatToStringValue(m);
    UnsignedWhole(d);
    if i < 0 {
      DecimalSigned(d);
    } else {
      DecimalUnsigned(d);
    }
  }

  /** What "%d" prints reads back as the same int. */
  lemma SanitizeDecimal(i: int)
    ensures Sanitize(IntToString(i)) == Int(i)
  {
    var s := IntToString(i);
    assert Plain(s) by {
      var m: nat := if i < 0 then -i else i;
      assert AllDigits(NatToString(m));
    }
    SanitizePlain(s);
    DecimalOfInt(i);
  }

  /** A fraction after the point is dropped: "12.75" is read as 12. */
  lemma SanitizeFraction(d: string, f: string)
    requires d != [] && AllDigits(d) && AllDigits(f)
    ensures Sanitize(d + "." + f) == Int(DigitsValue(d))
  {
    var t := d + "." + f;
    DigitsPlain(d);
    DigitsPlain(f);
    PlainConcat(d, ".");
    PlainConcat(d + ".", f);
    SanitizePlain(t);
    UnsignedFraction(d, f);
    assert t[0] == d[0];
    DecimalUnsigned(t);
  }

  // the table and its rows

  /** The rows of the OrderedDict, in order: names lists each key of data
      once, in the order it was first stored. */
  predicate Ordered(names: seq<Key>, data: map<Key, Row>) {
    (forall i, j :: 0 <= i < j < |names| ==> names[i] != names[j]) &&
    (forall n :: n in data ==> n in names) && (forall i :: 0 <= i < |names| ==> names[i] in data)
  }

  function RowsOf(names: seq<Key>, data: map<Key, Row>): (rows: seq<Row>)
    requires Ordered(names, data)
    ensures |rows| == |names| && forall k :: 0 <= k < |names| ==> rows[k] == data[names[k]]
  {
    seq(|names|, k requires 0 <= k < |names| => data[names[k]])
  }

  /** self.table.data[self.name] = self.current_row: an OrderedDict keeps
      the position of a key it already holds. */
  function Store(names: seq<Key>, data: map<Key, Row>, name: Key, row: Row): (r: (seq<Key>, map<Key, Row>))
    ensures Ordered(names, data) ==> Ordered(r.0, r.1)
  {
    if name in data then (names, data[name := row]) else (names + [name], data[name := row])
  }

  /** Storing a new name appends its row; storing a name already there
      replaces its row where it stands. */
  lemma StoreRows(names: seq<Key>, data: map<Key, Row>, name: Key, row: Row)
    requires Ordered(names, data)
    ensures var (n', d') := Store(names, data, name, row);
      if name in data then
        exists k :: 0 <= k < |names| && names[k] == name && RowsOf(n', d') == RowsOf(names, data)[k := row]
      else RowsOf(n', d') == RowsOf(names, data) + [row]
  {
    var (n', d') := Store(names, data, name, row);
    if name in data {
      var k :| 0 <= k < |names| && names[k] == name;
      assert RowsOf(n', d') == RowsOf(names, data)[k := row];
    } else {
      assert RowsOf(n', d') == RowsOf(names, data) + [row];
    }
  }

  /** Table: the header keys and the rows; fill_best adds first, best and
      best_count, indexed here from 0 for the columns 1 to 100. */
  class Table {
    var keys: seq<Key>
    var names: seq<Key>
    var data: map<Key, Row>
    var first: seq<Cell>
    var best: seq<Best>
    var bestCount: seq<int>

    ghost predicate Valid()
      reads this
    {
      Ordered(names, data)
    }

    constructor()
      ensures Valid() && keys == [] && names == [] && data == map[]
      ensures first == [] && best == [] && bestCount == []
    {
      keys, names, data := [], [], map[];
      first, best, bestCount := [], [], [];
    }
  }

  // the parser

  /** What a parser holds: its state, the table's keys and rows, its
      position in the header, the row being read, its name, and whether an
      exception was raised. */
  datatype Parse = Parse(state: ParserState, keys: seq<Key>, names: seq<Key>, data: map<Key, Row>,
                         pos: nat, row: Row, name: Key, raised: bool)

  /** The key whose text names the row: "#" for MyRunsParser, "User" for
      TableParser. */
  function NameKey(runs: bool): Key {
    if runs then Label("#") else Label("User")
  }

  /** A newly built parser (lines 101-107). */
  function Fresh(): (p: Parse)
    ensures Sound(p) && p.state == Outside && p.keys == [] && p.data == map[] && !p.raised
  {
    Parse(Outside, [], [], map[], 0, map[], Label(""), false)
  }

  /** No text cell under an int key. */
  predicate Numeric(r: Row) {
    forall k :: k in r && k.Col? ==> !r[k].Str?
  }

  /** What every parser state satisfies: the rows are ordered, every cell
      under an int key is a number or None,
      and each string key is one int() refuses, so that isint(key) is true
      exactly of the int keys. */
  predicate Sound(p: Parse) {
    Ordered(p.names, p.data) && Numeric(p.row) &&
    (forall n :: n in p.data ==> Numeric(p.data[n])) &&
    (forall i :: 0 <= i < |p.keys| && p.keys[i].Label? ==> !IsInt(p.keys[i].s))
  }

  /** handle_starttag(tag) (lines 110-114). */
  function StartTag(p: Parse, tag: string): (r: Parse)
    ensures Sound(p) ==> Sound(r)
  {
    if p.raised then p
    else if tag == "thead" then p.(state := THead)
    else if tag == "tbody" then p.(state := TBody)
    else p
  }

  /** </tr> in the body commits the row under its name and starts a new
      one (lines 119-122). */
  function Commit(p: Parse): (r: Parse)
    ensures Sound(p) ==> Sound(r)
  {
    var (n', d') := Store(p.names, p.data, p.name, p.row);
    p.(names := n', data := d', pos := 0, row := map[])
  }

  /** handle_endtag(tag) (lines 116-122): </tbody> leaves the body first,
      so a </tbody> commits nothing. */
  function EndTag(p: Parse, tag: string): (r: Parse)
    ensures Sound(p) ==> Sound(r)
  {
    if p.raised then p
    else
      var q := if tag == "tbody" then p.(state := Outside) else p;
      if q.state == TBody && tag == "tr" then Commit(q) else q
  }

  /** handle_data(data) (lines 125-143; lines 79-97 for MyRunsParser). */
  function Data(p: Parse, data: string, runs: bool): (r: Parse)
    ensures Sound(p) ==> Sound(r)
  {
    if p.raised || IsBlank(data) then p
    else if p.state == THead then
      var w := HeadWord(data);
      p.(keys := p.keys + [KeyOf(w)])
    else if p.state == TBody then
      if p.pos >= |p.keys| then p.(raised := true)
      else
        var k := p.keys[p.pos];
        var q := p.(row := p.row[k := CellOf(k, data)]);
        if k == NameKey(runs) then
          if runs then
            match ParseInt(Strip(data))
            case None => q.(raised := true)
            case Some(v) => q.(name := Col(v), pos := q.pos + 1)
          else q.(name := Label(Strip(data)), pos := q.pos + 1)
        else q.(pos := q.pos + 1)
    else p
  }

  /** Data the HTML parser hands over for `&nbsp;` is the no-break space,
      which isspace() counts as whitespace: the datum is skipped. A no-break
      space after a number is stripped before the number is read. */
  lemma NoBreakSpace(p: Parse, runs: bool)
    ensures Data(p, "\U{A0}", runs) == p
    ensures CellOf(Col(1), "7\U{A0}") == Int(7)
  {
    assert IsBlank("\U{A0}");
    assert Strip("7\U{A0}") == "7";
    assert NoCommas("7") == "7";
    assert Strip("7") == "7";
    assert DigitPrefix("7") == "7";
    assert DigitsValue("7") == 7;
  }

  /** An HTML event as the parser sees it. */
  datatype Event = Start(tag: string) | End(tag: string) | Chars(data: string)

  function Next(p: Parse, e: Event, runs: bool): (r: Parse)
    ensures Sound(p) ==> Sound(r)
  {
    match e
    case Start(t) => StartTag(p, t)
    case End(t) => EndTag(p, t)
    case Chars(d) => Data(p, d, runs)
  }

  /** feed(): the events in order. */
  function Feed(p: Parse, es: seq<Event>, runs: bool): (r: Parse)
    ensures Sound(p) ==> Sound(r)
    decreases |es|
  {
    if es == [] then p else Feed(Next(p, es[0], runs), es[1..], runs)
  }

  /** Outside <thead> and <tbody> the parser ignores text and </tr>. */
  lemma OutsideIgnores(p: Parse, data: string, runs: bool)
    requires p.state == Outside
    ensures Data(p, data, runs) == p && EndTag(p, "tr") == p
  {
  }

  /** The state moves only on <thead>, <tbody> and </tbody>. */
  lemma StateMoves(p: Parse, e: Event, runs: bool)
    requires !p.raised
    ensures Next(p, e, runs).state ==
      if e == Start("thead") then THead
      else if e == Start("tbody") then TBody
      else if e == End("tbody") then Outside
      else p.state
  {
  }

  /** The row that the texts ds make under the keys from the start of the
      header: each is stored under the key at its position, a later one
      replacing an earlier under the same key. */
  function RowOf(keys: seq<Key>, ds: seq<string>): Row
    requires |ds| <= |keys|
  {
    if ds == [] then map[]
    else RowOf(keys, ds[..|ds| - 1])[keys[|ds| - 1] := CellOf(keys[|ds| - 1], ds[|ds| - 1])]
  }

  /** The name the texts ds give the row that starts with the name n. */
  function NameOf(keys: seq<Key>, ds: seq<string>, n: Key, runs: bool): Key
    requires |ds| <= |keys|
  {
    if ds == [] then n
    else NameAfter(keys[|ds| - 1], ds[|ds| - 1], NameOf(keys, ds[..|ds| - 1], n, runs), runs)
  }

  /** The texts of a body row: not blank, no more than the header has
      keys, and int() accepts each under the "#" key of MyRunsParser. */
  predicate RowTexts(keys: seq<Key>, ds: seq<string>, runs: bool) {
    |ds| <= |keys| &&
    forall i :: 0 <= i < |ds| ==> !IsBlank(ds[i]) && (runs && keys[i] == NameKey(runs) ==> IsInt(ds[i]))
  }

  function Texts(ds: seq<string>): (es: seq<Event>)
    ensures |es| == |ds| && forall i :: 0 <= i < |ds| ==> es[i] == Chars(ds[i])
  {
    seq(|ds|, i requires 0 <= i < |ds| => Chars(ds[i]))
  }

  /** The name a text gives the row under the key k. */
  function NameAfter(k: Key, d: string, n: Key, runs: bool): Key {
    if k != NameKey(runs) then n
    else if !runs then Label(Strip(d))
    else match ParseInt(Strip(d))
      case Some(v) => Col(v)
      case None => n
  }

  /** One text of a body row. */
  lemma DataInBody(q: Parse, d: string, runs: bool)
    requires q.state == TBody && !q.raised && 0 <= q.pos < |q.keys| && !IsBlank(d)
    requires runs && q.keys[q.pos] == NameKey(runs) ==> IsInt(d)
    ensures var k := q.keys[q.pos];
      Data(q, d, runs) == q.(row := q.row[k := CellOf(k, d)], pos := q.pos + 1, name := NameAfter(k, d, q.name, runs))
  {
  }

  /** The parse after the texts ds of a body row, from its start. */
  function AfterTexts(p: Parse, ds: seq<string>, runs: bool): Parse
    requires |ds| <= |p.keys|
  {
    p.(pos := |ds|, row := p.row + RowOf(p.keys, ds), name := NameOf(p.keys, ds, p.name, runs))
  }

  lemma TextsSnoc(ds: seq<string>)
    requires ds != []
    ensures Texts(ds) == Texts(ds[..|ds| - 1]) + [Chars(ds[|ds| - 1])]
  {
  }

  /** One more text of a body row. */
  lemma AfterStep(p: Parse, ds: seq<string>, runs: bool)
    requires p.state == TBody && !p.raised && ds != [] && RowTexts(p.keys, ds, runs)
    ensures Data(AfterTexts(p, ds[..|ds| - 1], runs), ds[|ds| - 1], runs) == AfterTexts(p, ds, runs)
  {
    var n := |ds| - 1;
    var ds' := ds[..n];
    var q := AfterTexts(p, ds', runs);
    DataInBody(q, ds[n], runs);
    assert ds'[..|ds'|] == ds';
    var k := p.keys[n];
    UnionUpdate(p.row, RowOf(p.keys, ds'), k, CellOf(k, ds[n]));
  }

  lemma UnionUpdate(a: Row, b: Row, k: Key, c: Cell)
    ensures a + b[k := c] == (a + b)[k := c]
  {
  }

  /** Reading the texts of a row in the body stores each under the key at
      its position and advances the position past them. */
  lemma {:induction false} TextsRead(p: Parse, ds: seq<string>, runs: bool)
    requires p.state == TBody && !p.raised && p.pos == 0 && RowTexts(p.keys, ds, runs)
    ensures Feed(p, Texts(ds), runs) == AfterTexts(p, ds, runs)
    decreases |ds|
  {
    if ds == [] {
      assert p.row + map[] == p.row;
    } else {
      var ds' := ds[..|ds| - 1];
      assert RowTexts(p.keys, ds', runs);
      TextsRead(p, ds', runs);
      FeedAppend(p, Texts(ds'), Chars(ds[|ds| - 1]), runs);
      TextsSnoc(ds);
      AfterStep(p, ds, runs);
    }
  }

  /** Feeding one more event. */
  lemma {:induction false} FeedAppend(p: Parse, es: seq<Event>, e: Event, runs: bool)
    ensures Feed(p, es + [e], runs) == Next(Feed(p, es, runs), e, runs)
    decreases |es|
  {
    if es != [] {
      assert (es + [e])[1..] == es[1..] + [e];
      FeedAppend(Next(p, es[0], runs), es[1..], e, runs);
    }
  }

  /** A whole body row, its texts then </tr>, is stored under the name it
      gives, as an OrderedDict stores it, and the next row starts empty at
      the start of the header. */
  lemma RowCommitted(p: Parse, ds: seq<string>, runs: bool)
    requires p.state == TBody && !p.raised && p.pos == 0 && p.row == map[]
    requires RowTexts(p.keys, ds, runs)
    ensures var n := NameOf(p.keys, ds, p.name, runs);
      var (names, data) := Store(p.names, p.data, n, RowOf(p.keys, ds));
      Feed(p, Texts(ds) + [End("tr")], runs) == p.(names := names, data := data, pos := 0, name := n)
  {
    TextsRead(p, ds, runs);
    FeedAppend(p, Texts(ds), End("tr"), runs);
    assert p.row + RowOf(p.keys, ds) == RowOf(p.keys, ds);
  }

  class TableParser {
    const table: Table
    /** MyRunsParser rather than TableParser. */
    const runs: bool
    var state: ParserState
    var pos: nat
    var currentRow: Row
    var name: Key
    var raised: bool

    ghost function Snap(): Parse
      reads this, table
    {
      Parse(state, table.keys, table.names, table.data, pos, currentRow, name, raised)
    }

    ghost predicate Valid()
      reads this, table
    {
      Sound(Snap())
    }

    constructor(runs: bool)
      ensures Valid() && fresh(table) && this.runs == runs && Snap() == Fresh()
      ensures table.first == [] && table.best == [] && table.bestCount == []
    {
      table := new Table();
      this.runs := runs;
      state, pos, currentRow, name, raised := Outside, 0, map[], Label(""), false;
    }

    method HandleStarttag(tag: string)
      requires Valid()
      modifies this
      ensures Valid() && Snap() == StartTag(old(Snap()), tag)
    {
      if raised {
        return;
      }
      if tag == "thead" {
        state := THead;
      }
      if tag == "tbody" {
        state := TBody;
      }
    }

    method HandleEndtag(tag: string)
      requires Valid()
      modifies this, table
      ensures Valid() && Snap() == EndTag(old(Snap()), tag)
      ensures unchanged(table`keys, table`first, table`best, table`bestCount)
    {
      ghost var r := EndTag(Snap(), tag);
      if raised {
        return;
      }
      if tag == "tbody" {
        state := Outside;
      }
      if state == TBody && tag == "tr" {
        if !(name in table.data) {
          table.names := table.names + [name];
        }
        table.data := table.data[name := currentRow];
        pos := 0;
        currentRow := map[];
      }
      assert Snap() == r;
    }

    method HandleData(data: string)
      requires Valid()
      modifies this, table
      ensures Valid() && Snap() == Data(old(Snap()), data, runs)
      ensures unchanged(table`names, table`data, table`first, table`best, table`bestCount)
    {
      ghost var r := Data(Snap(), data, runs);
      if !raised && !IsBlank(data) {
        if state == THead {
          var w := HeadWord(data);
          table.keys := table.keys + [KeyOf(w)];
        }
        if state == TBody {
          BodyData(data);
        }
      }
      assert Snap() == r;
    }

    /** The text of a body cell (lines 133-143). */
    method BodyData(data: string)
      requires state == TBody && !raised && !IsBlank(data)
      modifies this
      ensures Snap() == Data(old(Snap()), data, runs)
    {
      if pos >= |table.keys| {
        raised := true;
      } else {
        var k := table.keys[pos];
        currentRow := currentRow[k := CellOf(k, data)];
        if k == NameKey(runs) && runs {
          var v := ParseInt(Strip(data));
          if v.None? {
            raised := true;
          } else {
            name := Col(v.value);
            pos := pos + 1;
          }
        } else {
          if k == NameKey(runs) {
            name := Label(Strip(data));
          }
          pos := pos + 1;
        }
      }
    }
  }

  // fill_best


  /** The cell of column c in the row r; None when r has no such column. */
  function CellAt(r: Row, c: int): Cell {
    if Col(c) in r then r[Col(c)] else Empty
  }

  /** Column c of the rows. */
  function Column(rows: seq<Row>, c: int): (vals: seq<Cell>)
    ensures |vals| == |rows| && forall k :: 0 <= k < |rows| ==> vals[k] == CellAt(rows[k], c)
  {
    seq(|rows|, k requires 0 <= k < |rows| => CellAt(rows[k], c))
  }

  /** x is below b: anything is below inf. */
  predicate Below(x: int, b: Best) {
    b == Inf || x < b.v
  }

  /** The least int among the values; inf when there is none. */
  function MinOf(vals: seq<Cell>): Best {
    if vals == [] then Inf
    else
      var m := MinOf(vals[..|vals| - 1]);
      match vals[|vals| - 1]
      case Int(x) => if Below(x, m) then Fin(x) else m
      case _ => m
  }

  /** How many values are the int b. */
  function CountOf(vals: seq<Cell>, b: Best): nat {
    if vals == [] then 0
    else CountOf(vals[..|vals| - 1], b) + (if vals[|vals| - 1].Int? && b == Fin(vals[|vals| - 1].v) then 1 else 0)
  }

  /** One value of the inner loop of fill_best (lines 200-206): a tie
      counts once more, a smaller value restarts the count at 1. */
  function Step(acc: (Best, int), v: Cell): (Best, int) {
    match v
    case Int(x) =>
      if acc.0 == Fin(x) then (acc.0, acc.1 + 1)
      else if Below(x, acc.0) then (Fin(x), 1)
      else acc
    case _ => acc
  }

  /** The best value and its count after the values, in order, starting
      from inf and 0 (lines 189-191). */
  function Scan(vals: seq<Cell>): (Best, int) {
    if vals == [] then (Inf, 0) else Step(Scan(vals[..|vals| - 1]), vals[|vals| - 1])
  }

  /** MinOf is the least of the ints, inf exactly when there is none. */
  lemma {:induction false} MinOfLeast(vals: seq<Cell>)
    ensures forall k :: 0 <= k < |vals| && vals[k].Int? ==> MinOf(vals).Fin? && MinOf(vals).v <= vals[k].v
    ensures MinOf(vals) == Inf <==> forall k :: 0 <= k < |vals| ==> !vals[k].Int?
    ensures MinOf(vals).Fin? ==> exists k :: 0 <= k < |vals| && vals[k] == Int(MinOf(vals).v)
  {
    if vals != [] {
      var p := vals[..|vals| - 1];
      MinOfLeast(p);
      assert forall k :: 0 <= k < |p| ==> p[k] == vals[k];
      var m := MinOf(p);
      if m.Fin? && !(vals[|vals| - 1].Int? && Below(vals[|vals| - 1].v, m)) {
        var k :| 0 <= k < |p| && p[k] == Int(m.v);
        assert vals[k] == Int(m.v);
      }
    }
  }

  /** No value is the int x. */
  lemma {:induction false} CountNone(vals: seq<Cell>, x: int)
    requires forall k :: 0 <= k < |vals| ==> vals[k] != Int(x)
    ensures CountOf(vals, Fin(x)) == 0
  {
    if vals != [] {
      CountNone(vals[..|vals| - 1], x);
    }
  }

  /** The loop finds the least value and counts the values equal to it. */
  lemma {:induction false} ScanFinds(vals: seq<Cell>)
    ensures Scan(vals) == (MinOf(vals), CountOf(vals, MinOf(vals)))
  {
    if vals != [] {
      var p := vals[..|vals| - 1];
      ScanFinds(p);
      var m := MinOf(p);
      var v := vals[|vals| - 1];
      if v.Int? && Below(v.v, m) && m != Fin(v.v) {
        MinOfLeast(p);
        CountNone(p, v.v);
      }
    }
  }

  lemma {:induction false} CountSome(vals: seq<Cell>, k: int)
    requires 0 <= k < |vals| && vals[k].Int?
    ensures CountOf(vals, Fin(vals[k].v)) >= 1
  {
    if k < |vals| - 1 {
      assert vals[..|vals| - 1][k] == vals[k];
      CountSome(vals[..|vals| - 1], k);
    }
  }

  lemma {:induction false} CountInf(vals: seq<Cell>)
    ensures CountOf(vals, Inf) == 0
  {
    if vals != [] {
      CountInf(vals[..|vals| - 1]);
    }
  }

  /** The best value of a column is inf exactly when its count is 0, which
      is when no row has a number there; otherwise no number is below it
      and at least one row reaches it. */
  lemma BestCounted(vals: seq<Cell>)
    ensures var (b, c) := Scan(vals);
      (b == Inf <==> c == 0) && (b == Inf <==> forall k :: 0 <= k < |vals| ==> !vals[k].Int?) &&
      (forall k :: 0 <= k < |vals| && vals[k].Int? ==> b.Fin? && b.v <= vals[k].v)
  {
    ScanFinds(vals);
    MinOfLeast(vals);
    var b := MinOf(vals);
    if b.Fin? {
      var k :| 0 <= k < |vals| && vals[k] == Int(b.v);
      CountSome(vals, k);
    } else {
      CountInf(vals);
    }
  }

  /** Column c of the first k + 1 rows. */
  lemma ColumnGrows(rows: seq<Row>, k: int, c: int)
    requires 0 <= k < |rows|
    ensures Scan(Column(rows[..k + 1], c)) == Step(Scan(Column(rows[..k], c)), CellAt(rows[k], c))
  {
    assert Column(rows[..k + 1], c)[..k] == Column(rows[..k], c);
  }

  // the exceptions fill_best can raise

  /** What fill_best raises: StopIteration on a table without rows, a
      KeyError for a column 1 to 100 a row lacks, a TypeError for a text
      cell, which `<` cannot compare with a number. Each names the row (from
      0, in table order) and the column where it is raised. */
  datatype FillError = StopIteration | KeyError(row: nat, col: int) | TypeError(row: nat, col: int)

  /** fill_best can use the cell of row r in column c: it is there, and is a
      number or None. */
  predicate Fits(r: Row, c: int) {
    Col(c) in r && !r[Col(c)].Str?
  }

  /** Every row holds the columns 1 to 100, each a number or None. */
  predicate Complete(rows: seq<Row>) {
    forall k, i :: 0 <= k < |rows| && 1 <= i <= Columns ==> Fits(rows[k], i)
  }

  /** The first column from c on that r lacks (the loop of line 195). */
  function Missing(r: Row, c: int): Option<int>
    requires 1 <= c
    decreases Columns + 1 - c
  {
    if c > Columns then None else if Col(c) !in r then Some(c) else Missing(r, c + 1)
  }

  /** The exception the inner loop (lines 199-206) raises at row k of the
      table, from column c on. */
  function CellFault(r: Row, k: nat, c: int): Option<FillError>
    requires 1 <= c
    decreases Columns + 1 - c
  {
    if c > Columns then None
    else if Col(c) !in r then Some(KeyError(k, c))
    else if r[Col(c)].Str? then Some(TypeError(k, c))
    else CellFault(r, k, c + 1)
  }

  /** The exception the outer loop (line 198) raises from row k on. */
  function RowsFault(rows: seq<Row>, k: nat): Option<FillError>
    decreases |rows| - k
  {
    if k >= |rows| then None
    else match CellFault(rows[k], k, 1)
      case Some(e) => Some(e)
      case None => RowsFault(rows, k + 1)
  }

  /** The exception fill_best raises on the rows: StopIteration at line 193,
      a KeyError of the first row at line 196, or one from the loops. */
  function Fault(rows: seq<Row>): Option<FillError> {
    if rows == [] then Some(StopIteration)
    else match Missing(rows[0], 1)
      case Some(c) => Some(KeyError(0, c))
      case None => RowsFault(rows, 0)
  }

  lemma {:induction false} MissingNone(r: Row, c: int)
    requires 1 <= c
    ensures Missing(r, c) == None <==> forall i :: c <= i <= Columns ==> Col(i) in r
    ensures Missing(r, c).Some? ==> var m := Missing(r, c).value;
      c <= m <= Columns && Col(m) !in r && forall i :: c <= i < m ==> Col(i) in r
    decreases Columns + 1 - c
  {
    if c <= Columns && Col(c) in r {
      MissingNone(r, c + 1);
    }
  }

  lemma {:induction false} CellFaultNone(r: Row, k: nat, c: int)
    requires 1 <= c
    ensures CellFault(r, k, c) == None <==> forall i :: c <= i <= Columns ==> Fits(r, i)
    ensures CellFault(r, k, c).Some? ==> var e := CellFault(r, k, c).value;
      !e.StopIteration? && e.row == k && c <= e.col <= Columns &&
      (e.KeyError? <==> Col(e.col) !in r) && !Fits(r, e.col) &&
      forall i :: c <= i < e.col ==> Fits(r, i)
    decreases Columns + 1 - c
  {
    if c <= Columns && Fits(r, c) {
      CellFaultNone(r, k, c + 1);
    }
  }

  lemma {:induction false} RowsFaultNone(rows: seq<Row>, k: nat)
    ensures RowsFault(rows, k) == None <==>
      forall j, i :: k <= j < |rows| && 1 <= i <= Columns ==> Fits(rows[j], i)
    ensures RowsFault(rows, k).Some? ==> var e := RowsFault(rows, k).value;
      !e.StopIteration? && k <= e.row < |rows| && 1 <= e.col <= Columns &&
      (e.KeyError? <==> Col(e.col) !in rows[e.row]) && !Fits(rows[e.row], e.col) &&
      (forall j, i :: k <= j < e.row && 1 <= i <= Columns ==> Fits(rows[j], i)) &&
      forall i :: 1 <= i < e.col ==> Fits(rows[e.row], i)
    decreases |rows| - k
  {
    if k < |rows| {
      CellFaultNone(rows[k], k, 1);
      if CellFault(rows[k], k, 1) == None {
        RowsFaultNone(rows, k + 1);
      }
    }
  }

  /** fill_best raises nothing exactly when the table has a row and every
      row holds every column 1 to 100 as a number or None. StopIteration
      means no rows. Otherwise the exception is raised at the first cell, in
      table order, that fill_best cannot use: a missing column of the first
      row (line 196) comes before anything else, then the first cell that is
      missing (KeyError) or text (TypeError). */
  lemma FaultIs(rows: seq<Row>)
    ensures Fault(rows) == None <==> rows != [] && Complete(rows)
    ensures Fault(rows) == Some(StopIteration) <==> rows == []
    ensures Fault(rows).Some? && rows != [] ==> var e := Fault(rows).value;
      !e.StopIteration? && 0 <= e.row < |rows| && 1 <= e.col <= Columns &&
      (e.KeyError? <==> Col(e.col) !in rows[e.row]) && !Fits(rows[e.row], e.col) &&
      (forall i :: 1 <= i < e.col ==> Col(i) in rows[e.row]) &&
      (e.row > 0 || e.TypeError? ==>
        (forall i :: 1 <= i <= Columns ==> Col(i) in rows[0]) &&
        (forall j, i :: 0 <= j < e.row && 1 <= i <= Columns ==> Fits(rows[j], i)) &&
        forall i :: 1 <= i < e.col ==> Fits(rows[e.row], i))
  {
    if rows != [] {
      MissingNone(rows[0], 1);
      RowsFaultNone(rows, 0);
      match Missing(rows[0], 1)
      case Some(c) =>
        assert !Complete(rows) by {
          assert !Fits(rows[0], c);
        }
      case None =>
        if RowsFault(rows, 0).Some? {
          var e := RowsFault(rows, 0).value;
          forall i | 1 <= i < e.col
            ensures Col(i) in rows[e.row]
          {
            assert Fits(rows[e.row], i);
          }
        }
    }
  }

  /** The loops of fill_best (lines 198-206): for each of the columns 1 to
      100, the least number in it over the rows, and how many rows have
      it; or the exception raised at the first cell the loops cannot use. */
  method BestOf(rows: seq<Row>) returns (best: seq<Best>, count: seq<int>, fault: Option<FillError>)
    ensures fault == RowsFault(rows, 0)
    ensures fault == None ==> |best| == Columns && |count| == Columns
    ensures fault == None ==> forall i :: 0 <= i < Columns ==>
      best[i] == MinOf(Column(rows, i + 1)) && count[i] == CountOf(Column(rows, i + 1), best[i])
  {
    best := seq(Columns, _ => Inf);
    count := seq(Columns, _ => 0);
    var k := 0;
    while k < |rows|
      invariant 0 <= k <= |rows| && |best| == Columns && |count| == Columns
      invariant RowsFault(rows, 0) == RowsFault(rows, k)
      invariant forall i :: 0 <= i < Columns ==> (best[i], count[i]) == Scan(Column(rows[..k], i + 1))
    {
      var f;
      best, count, f := AddRow(best, count, rows[k], k);
      if f.Some? {
        return best, count, f;
      }
      forall c | 1 <= c <= Columns
        ensures Scan(Column(rows[..k + 1], c)) == Step(Scan(Column(rows[..k], c)), CellAt(rows[k], c))
      {
        ColumnGrows(rows, k, c);
      }
      k := k + 1;
    }
    fault := None;
    assert rows[..k] == rows;
    forall i | 0 <= i < Columns
      ensures best[i] == MinOf(Column(rows, i + 1)) && count[i] == CountOf(Column(rows, i + 1), best[i])
    {
      ScanFinds(Column(rows, i + 1));
    }
  }

  /** The inner loop of fill_best (lines 199-206) on row k: one row moves
      each column's best value and count by one step, or raises at the
      first cell it cannot use. */
  method AddRow(best: seq<Best>, count: seq<int>, row: Row, k: nat)
    returns (best': seq<Best>, count': seq<int>, fault: Option<FillError>)
    requires |best| == Columns && |count| == Columns
    ensures fault == CellFault(row, k, 1)
    ensures |best'| == Columns && |count'| == Columns
    ensures fault == None ==>
      forall j :: 0 <= j < Columns ==> (best'[j], count'[j]) == Step((best[j], count[j]), CellAt(row, j + 1))
  {
    best', count' := best, count;
    var i := 0;
    while i < Columns
      invariant 0 <= i <= Columns && |best'| == Columns && |count'| == Columns
      invariant CellFault(row, k, 1) == CellFault(row, k, i + 1)
      invariant forall j :: 0 <= j < i ==> (best'[j], count'[j]) == Step((best[j], count[j]), CellAt(row, j + 1))
      invariant forall j :: i <= j < Columns ==> best'[j] == best[j] && count'[j] == count[j]
    {
      if Col(i + 1) !in row {
        return best', count', Some(KeyError(k, i + 1));
      }
      var v: Cell := row[Col(i + 1)];
      match v {
        case Str(_) =>
          return best', count', Some(TypeError(k, i + 1));
        case Int(x) =>
          if best'[i] == Fin(x) {
            count' := count'[i := count'[i] + 1];
          } else if Below(x, best'[i]) {
            best' := best'[i := Fin(x)];
            count' := count'[i := 1];
          }
        case Empty =>
      }
      i := i + 1;
    }
    fault := None;
  }

  /** The loop of lines 195-196: the first row's columns 1 to 100, or the
      first of them it lacks. */
  method FirstRow(r: Row) returns (first: seq<Cell>, missing: Option<int>)
    ensures missing == Missing(r, 1)
    ensures missing == None ==> |first| == Columns && forall i :: 0 <= i < Columns ==> first[i] == CellAt(r, i + 1)
  {
    first := [];
    var i := 1;
    while i <= Columns
      invariant 1 <= i <= Columns + 1 && |first| == i - 1
      invariant Missing(r, 1) == Missing(r, i)
      invariant forall j :: 0 <= j < i - 1 ==> first[j] == CellAt(r, j + 1)
    {
      if Col(i) !in r {
        return first, Some(i);
      }
      first := first + [r[Col(i)]];
      i := i + 1;
    }
    missing := None;
  }

  /** fill_best(table) (lines 183-210): first is the first row's columns
      1 to 100, best and best_count each column's least number and how many
      rows reach it. When the source raises, the error is returned and the
      table keeps its fields: they are only assigned at lines 208-210. */
  method FillBest(t: Table) returns (error: Option<FillError>)
    requires t.Valid()
    modifies t
    ensures t.Valid()
    ensures unchanged(t`keys, t`names, t`data)
    ensures error == Fault(RowsOf(t.names, t.data))
    ensures error.Some? ==> unchanged(t)
    ensures error == None ==> |t.first| == Columns && |t.best| == Columns && |t.bestCount| == Columns
    ensures error == None ==> var rows := RowsOf(t.names, t.data);
      forall i :: 0 <= i < Columns ==>
        t.first[i] == CellAt(rows[0], i + 1) &&
        t.best[i] == MinOf(Column(rows, i + 1)) && t.bestCount[i] == CountOf(Column(rows, i + 1), t.best[i])
  {
    var rows := RowsOf(t.names, t.data);
    if rows == [] {
      return Some(StopIteration);
    }
    var first, missing := FirstRow(rows[0]);
    if missing.Some? {
      return Some(KeyError(0, missing.value));
    }
    var best, count, fault := BestOf(rows);
    if fault.Some? {
      return fault;
    }
    t.first, t.best, t.bestCount := first, best, count;
    error := None;
  }
}
