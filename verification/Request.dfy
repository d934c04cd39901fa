/**
 Requests as the C client builds them: `mySprintf` with its buffer for literal text, the functions
 that append vectors and properties, and the calls with the most optional parts.  A request that
 does not exist yet is the empty string here.
 */
module Request {
  import opened Common
  import opened Text
  import opened Multimap
  import opened Protocol
  import opened RrpVector
  import opened RrpProperties

  // ---------------------------------------------------------------- formats

  const SLOT := "%s"
  const LITERAL_SIZE := 64

  predicate IsSlot(last: char, c: char) { last == '%' && c == 's' }

  function Slots(last: char, format: string): nat
    decreases |format|
  {
    if format == "" then 0
    else (if IsSlot(last, format[0]) then 1 else 0) + Slots(format[0], format[1..])
  }

  /** The text a format stands for, `last` being the character before it.  A percent sign is
      dropped, whatever follows it. */
  function Expand(last: char, format: string, arguments: seq<string>): string
    requires Slots(last, format) <= |arguments|
    decreases |format|
  {
    if format == "" then ""
    else if IsSlot(last, format[0]) then arguments[0] + Expand('s', format[1..], arguments[1..])
    else (if format[0] == '%' then "" else format[..1]) + Expand(format[0], format[1..], arguments)
  }

  /** No run of literal text overflows the buffer, `used` characters of which are taken. */
  predicate Fits(last: char, format: string, used: nat)
    decreases |format|
  {
    format == ""
    || if IsSlot(last, format[0]) then Fits('s', format[1..], 0)
       else if format[0] == '%' then Fits('%', format[1..], used)
       else used + 1 < LITERAL_SIZE && Fits(format[0], format[1..], used + 1)
  }

  predicate FormatOk(format: string, arguments: seq<string>) {
    '\0' !in format && Fits('\0', format, 0) && Slots('\0', format) <= |arguments|
  }

  lemma ExpandStep(last: char, format: string, arguments: seq<string>, used: nat)
    requires format != "" && Slots(last, format) <= |arguments| && Fits(last, format, used)
    ensures var c, rest := format[0], format[1..];
            if IsSlot(last, c) then
              arguments != [] && Slots('s', rest) <= |arguments| - 1 && Fits('s', rest, 0)
              && Expand(last, format, arguments) == arguments[0] + Expand('s', rest, arguments[1..])
            else
              Slots(c, rest) <= |arguments|
              && if c == '%' then Fits(c, rest, used) && Expand(last, format, arguments) == Expand(c, rest, arguments)
                 else used + 1 < LITERAL_SIZE && Fits(c, rest, used + 1)
                      && Expand(last, format, arguments) == [c] + Expand(c, rest, arguments)
  {}

  lemma ExpandEnd(last: char, arguments: seq<string>)
    ensures Slots(last, "") == 0 && Expand(last, "", arguments) == ""
  {}

  method MySprintf(format: string, original: string, arguments: seq<string>) returns (r: string)
    requires FormatOk(format, arguments)
    ensures r == original + Expand('\0', format, arguments)
  {
    hide Expand, Fits, Slots;
    r := original;
    var modifier := ['\0', '\0'];
    var literal := new char[LITERAL_SIZE];
    literal[0] := '\0';
    var index, i, argument := 0, 0, 0;
    while i < |format|
      invariant 0 <= i <= |format| && 0 <= argument <= |arguments| && |modifier| == 2
      invariant Slots(modifier[1], format[i..]) <= |arguments| - argument
      invariant 0 <= index < LITERAL_SIZE && Fits(modifier[1], format[i..], index)
      invariant literal[0] != '\0' <==> index > 0
      invariant original + Expand('\0', format, arguments)
                == r + literal[..index] + Expand(modifier[1], format[i..], arguments[argument..])
    {
      ghost var rest := format[i..];
      var c := format[i];
      assert rest[0] == c && rest[1..] == format[i + 1..];
      ExpandStep(modifier[1], rest, arguments[argument..], index);
      modifier := [modifier[1], c];
      ghost var before := r + literal[..index];
      if modifier == SLOT {
        if literal[0] != '\0' {
          r := r + literal[..index];
        }
        index := 0;
        literal[0] := '\0';
        r := r + arguments[argument];
        argument := argument + 1;
        assert r + literal[..index] == before + arguments[argument - 1];
        assert arguments[argument - 1..][1..] == arguments[argument..];
        Concat(before, arguments[argument - 1], Expand(c, format[i + 1..], arguments[argument..]));
      } else if c != '%' {
        literal[index] := c;
        index := index + 1;
        literal[index] := '\0';
        assert literal[..index] == literal[..index - 1] + [c];
        assert r + literal[..index] == before + [c];
        Concat(before, [c], Expand(c, format[i + 1..], arguments[argument..]));
      }
      i := i + 1;
    }
    assert format[i..] == "";
    ExpandEnd(modifier[1], arguments[argument..]);
    if literal[0] != '\0' {
      r := r + literal[..index];
    } else {
      assert r + literal[..index] == r;
    }
    assert r + "" == r;
  }

  // ---------------------------------------------------------------- what formats mean

  /** Literal pieces with a slot between each two. */
  function FormatText(pieces: seq<string>): string
    requires pieces != []
  {
    if |pieces| == 1 then pieces[0] else pieces[0] + SLOT + FormatText(pieces[1..])
  }

  function Interleave(pieces: seq<string>, arguments: seq<string>): string
    requires |pieces| == |arguments| + 1
    decreases |arguments|
  {
    if arguments == [] then pieces[0] else pieces[0] + arguments[0] + Interleave(pieces[1..], arguments[1..])
  }

  predicate LiteralOk(s: string) {
    |s| < LITERAL_SIZE && forall i :: 0 <= i < |s| ==> s[i] != '%' && s[i] != '\0'
  }

  function LastOf(last: char, s: string): char { if s == "" then last else s[|s| - 1] }

  lemma {:induction false} LiteralStep(last: char, literal: string, rest: string, used: nat)
    requires forall i :: 0 <= i < |literal| ==> literal[i] != '%'
    requires last != '%' && used + |literal| < LITERAL_SIZE
    ensures var last' := LastOf(last, literal);
            last' != '%' && Slots(last, literal + rest) == Slots(last', rest)
            && (Fits(last', rest, used + |literal|) ==> Fits(last, literal + rest, used))
    decreases |literal|
  {
    if literal == "" {
      assert literal + rest == rest;
    } else {
      assert (literal + rest)[1..] == literal[1..] + rest;
      LiteralStep(literal[0], literal[1..], rest, used + 1);
    }
  }

  lemma {:induction false} LiteralExpand(last: char, literal: string, rest: string, arguments: seq<string>)
    requires forall i :: 0 <= i < |literal| ==> literal[i] != '%'
    requires last != '%' && |literal| < LITERAL_SIZE && Slots(LastOf(last, literal), rest) <= |arguments|
    ensures Slots(last, literal + rest) <= |arguments|
    ensures Expand(last, literal + rest, arguments) == literal + Expand(LastOf(last, literal), rest, arguments)
    decreases |literal|
  {
    LiteralStep(last, literal, rest, 0);
    if literal == "" {
      assert literal + rest == rest;
    } else {
      assert (literal + rest)[1..] == literal[1..] + rest;
      assert (literal + rest)[..1] == literal[..1];
      LiteralExpand(literal[0], literal[1..], rest, arguments);
      assert literal[..1] + literal[1..] == literal;
      Concat(literal[..1], literal[1..], Expand(LastOf(last, literal), rest, arguments));
    }
  }

  /** A slot after literal text. */
  lemma SlotStep(last: char, rest: string, arguments: seq<string>)
    requires last != '%'
    ensures Slots(last, SLOT + rest) == 1 + Slots('s', rest)
    ensures forall used :: Fits('s', rest, 0) ==> Fits(last, SLOT + rest, used)
    ensures arguments != [] && Slots('s', rest) < |arguments|
            ==> Expand(last, SLOT + rest, arguments) == arguments[0] + Expand('s', rest, arguments[1..])
  {
    var s := SLOT + rest;
    assert s[0] == '%' && s[1..] == "s" + rest && s[1..][0] == 's' && s[1..][1..] == rest;
  }

  /** Substitution is what `sprintf` promises: every slot is replaced by its argument, as it is,
      and the text between stays. */
  lemma {:induction false} ExpandFormat(last: char, pieces: seq<string>, arguments: seq<string>)
    requires |pieces| == |arguments| + 1 && last != '%'
    requires forall i :: 0 <= i < |pieces| ==> LiteralOk(pieces[i])
    ensures var format := FormatText(pieces);
            Slots(last, format) == |arguments| && Fits(last, format, 0) && '\0' !in format
            && Expand(last, format, arguments) == Interleave(pieces, arguments)
    decreases |pieces|
  {
    var p := pieces[0];
    if |pieces| == 1 {
      assert p + "" == p;
      LiteralStep(last, p, "", 0);
      LiteralExpand(last, p, "", arguments);
    } else {
      var rest := FormatText(pieces[1..]);
      ExpandFormat('s', pieces[1..], arguments[1..]);
      SlotStep(LastOf(last, p), rest, arguments);
      assert p + SLOT + rest == p + (SLOT + rest);
      LiteralStep(last, p, SLOT + rest, 0);
      LiteralExpand(last, p, SLOT + rest, arguments);
      Concat(p, arguments[0], Expand('s', rest, arguments[1..]));
    }
  }

  // ---------------------------------------------------------------- appending

  function Digit(d: nat): char
    requires d < 10
  {
    (d + '0' as int) as char
  }

  /** What `%d` prints. */
  function Decimal(n: int): string
    decreases if n < 0 then 1 - n else n
  {
    if n < 0 then "-" + Decimal(-n)
    else if n < 10 then [Digit(n)]
    else Decimal(n / 10) + [Digit(n % 10)]
  }

  lemma {:induction false} DigitPrefixAppend(s: string, c: char, value: nat)
    requires forall i :: 0 <= i < |s| ==> IsDigit(s[i])
    requires IsDigit(c)
    ensures DigitPrefix(s + [c], value) == DigitPrefix(s, value) * 10 + (c as int - '0' as int)
    decreases |s|
  {
    var t := s + [c];
    if s == "" {
      assert t[1..] == "";
      assert DigitPrefix("", t[0] as int - '0' as int + value * 10) == value * 10 + (c as int - '0' as int);
    } else {
      assert t[1..] == s[1..] + [c];
      DigitPrefixAppend(s[1..], c, value * 10 + (s[0] as int - '0' as int));
    }
  }

  /** Reading the digits gives the number back. */
  lemma {:induction false} DecimalValue(n: nat)
    ensures AllDigits(Decimal(n)) && DigitPrefix(Decimal(n), 0) == n
    decreases n
  {
    if n < 10 {
      assert [Digit(n)] == "" + [Digit(n)];
      DigitPrefixAppend("", Digit(n), 0);
    } else {
      DecimalValue(n / 10);
      DigitPrefixAppend(Decimal(n / 10), Digit(n % 10), 0);
    }
  }

  /** One field for each value. */
  function VectorFields(key: string, values: seq<string>): (r: seq<Pair>)
    ensures |r| == |values| && forall i :: 0 <= i < |r| ==> r[i] == (key, values[i])
  {
    seq(|values|, i requires 0 <= i < |values| => (key, values[i]))
  }

  /** The same, with the sign for deletion behind the value. */
  function DeletedFields(key: string, values: seq<string>): (r: seq<Pair>)
    ensures |r| == |values| && forall i :: 0 <= i < |r| ==> r[i] == (key, values[i] + "=")
  {
    seq(|values|, i requires 0 <= i < |values| => (key, values[i] + "="))
  }

  /** An old value and one of the new values that replace it. */
  function ReplacedFields(key: string, old_: string, values: seq<string>): (r: seq<Pair>)
    ensures |r| == |values| && forall i :: 0 <= i < |r| ==> r[i] == (key, old_ + "=" + values[i])
  {
    seq(|values|, i requires 0 <= i < |values| => (key, old_ + "=" + values[i]))
  }

  function PropertyFields(key: string, entries: seq<Entry>): seq<Pair> {
    if entries == [] then []
    else
      var last := entries[|entries| - 1];
      PropertyFields(key, entries[..|entries| - 1]) + ReplacedFields(key, last.key, last.values)
  }

  /** A list of keys in two parts, and one key: fields come key by key, and for each key value by value. */
  lemma {:induction false} PropertyFieldsAre(key: string, a: seq<Entry>, b: seq<Entry>, e: Entry)
    ensures PropertyFields(key, a + b) == PropertyFields(key, a) + PropertyFields(key, b)
    ensures |PropertyFields(key, [e])| == |e.values|
            && forall i :: 0 <= i < |e.values| ==> PropertyFields(key, [e])[i] == (key, e.key + "=" + e.values[i])
    decreases |b|
  {
    assert PropertyFields(key, [e]) == PropertyFields(key, []) + ReplacedFields(key, e.key, e.values);
    if b == [] {
      assert a + b == a;
    } else {
      var n := |b| - 1;
      assert (a + b)[..|a + b| - 1] == a + b[..n];
      PropertyFieldsAre(key, a, b[..n], e);
    }
  }

  /** Appending the text of one more field. */
  lemma FieldStep(request: string, fields: seq<Pair>, p: Pair)
    ensures request + FieldLines(fields) + FieldText(p) + CRLF == request + FieldLines(fields + [p])
  {
    FieldLinesAppend(fields, [p]);
    OneField(p);
    Concat(request, FieldLines(fields), FieldLines([p]));
    Concat(request + FieldLines(fields), FieldText(p), CRLF);
  }

  lemma OneField(p: Pair)
    ensures FieldLines([p]) == FieldText(p) + CRLF
  {
    assert FieldLines([p]) == FieldText(p) + CRLF + FieldLines([]);
  }

  /** The format of a field. */
  lemma FieldFormat(p: Pair)
    ensures FormatOk("%s:%s\r\n", [p.0, p.1])
    ensures Expand('\0', "%s:%s\r\n", [p.0, p.1]) == FieldText(p) + CRLF
  {
    hide Expand, Fits, Slots;
    var pieces, arguments := ["", ":", CRLF], [p.0, p.1];
    ExpandFormat('\0', pieces, arguments);
    ThreePieces(pieces, arguments);
    assert "%s:%s\r\n" == FormatText(pieces);
  }

  lemma DeletedFormat(key: string, value: string)
    ensures FormatOk("%s:%s=\r\n", [key, value])
    ensures Expand('\0', "%s:%s=\r\n", [key, value]) == FieldText((key, value + "=")) + CRLF
  {
    hide Expand, Fits, Slots;
    var pieces, arguments := ["", ":", "=" + CRLF], [key, value];
    ExpandFormat('\0', pieces, arguments);
    ThreePieces(pieces, arguments);
    assert "%s:%s=\r\n" == FormatText(pieces);
  }

  lemma ReplacedFormat(key: string, old_: string, value: string)
    ensures FormatOk("%s:%s=%s\r\n", [key, old_, value])
    ensures Expand('\0', "%s:%s=%s\r\n", [key, old_, value]) == FieldText((key, old_ + "=" + value)) + CRLF
  {
    hide Expand, Fits, Slots;
    var pieces, arguments := ["", ":", "=", CRLF], [key, old_, value];
    ExpandFormat('\0', pieces, arguments);
    assert pieces[1..] == [":", "=", CRLF] && arguments[1..] == [old_, value];
    ThreePieces(pieces[1..], arguments[1..]);
    assert "%s:%s=%s\r\n" == FormatText(pieces);
  }

  lemma ThreePieces(pieces: seq<string>, arguments: seq<string>)
    requires |pieces| == 3 && |arguments| == 2
    ensures FormatText(pieces) == pieces[0] + SLOT + (pieces[1] + SLOT + pieces[2])
    ensures Interleave(pieces, arguments) == pieces[0] + arguments[0] + (pieces[1] + arguments[1] + pieces[2])
  {
    TwoPieces(pieces[1..], arguments[1..]);
  }

  lemma TwoPieces(pieces: seq<string>, arguments: seq<string>)
    requires |pieces| == 2 && |arguments| == 1
    ensures FormatText(pieces) == pieces[0] + SLOT + pieces[1]
    ensures Interleave(pieces, arguments) == pieces[0] + arguments[0] + pieces[1]
  {
    assert FormatText(pieces[1..]) == pieces[1];
    assert Interleave(pieces[1..], arguments[1..]) == pieces[1];
  }

  method AppendVector(request: string, key: string, vector: Vector) returns (r: string)
    requires vector.Linked()
    ensures r == request + FieldLines(VectorFields(key, vector.contents))
  {
    hide Expand, FormatOk, FieldLines, Vector.Linked, FieldText;
    r := request;
    var size := vector.Size();
    ghost var values, done := vector.contents, [];
    NoFields(request);
    var i := 0;
    while i < size
      invariant 0 <= i <= size && done == VectorFields(key, values[..i])
      invariant r == request + FieldLines(done)
    {
      var value := vector.ElementAt(i);
      FieldFormat((key, value.value));
      ghost var before := r;
      r := MySprintf("%s:%s\r\n", r, [key, value.value]);
      Concat(before, FieldText((key, value.value)), CRLF);
      FieldStep(request, done, (key, value.value));
      i := i + 1;
      done := done + [(key, value.value)];
    }
    assert values[..i] == values;
  }

  lemma NoFields(request: string)
    ensures request == request + FieldLines([])
  {}

  method AppendDeletedVector(request: string, key: string, vector: Vector) returns (r: string)
    requires vector.Linked()
    ensures r == request + FieldLines(DeletedFields(key, vector.contents))
  {
    hide Expand, FormatOk, FieldLines, Vector.Linked, FieldText;
    r := request;
    var size := vector.Size();
    ghost var values, done := vector.contents, [];
    NoFields(request);
    var i := 0;
    while i < size
      invariant 0 <= i <= size && done == DeletedFields(key, values[..i])
      invariant r == request + FieldLines(done)
    {
      var value := vector.ElementAt(i);
      DeletedFormat(key, value.value);
      ghost var before := r;
      r := MySprintf("%s:%s=\r\n", r, [key, value.value]);
      ghost var p := (key, value.value + "=");
      Concat(before, FieldText(p), CRLF);
      FieldStep(request, done, p);
      i := i + 1;
      done := done + [p];
    }
    assert values[..i] == values;
  }

  method AppendReplaced(request: string, key: string, old_: string, vector: Vector) returns (r: string)
    requires vector.Linked()
    ensures r == request + FieldLines(ReplacedFields(key, old_, vector.contents))
  {
    hide Expand, FormatOk, FieldLines, Vector.Linked, FieldText;
    r := request;
    var size := vector.Size();
    ghost var values, done := vector.contents, [];
    NoFields(request);
    var i := 0;
    while i < size
      invariant 0 <= i <= size && done == ReplacedFields(key, old_, values[..i])
      invariant r == request + FieldLines(done)
    {
      var value := vector.ElementAt(i);
      ReplacedFormat(key, old_, value.value);
      ghost var before := r;
      r := MySprintf("%s:%s=%s\r\n", r, [key, old_, value.value]);
      ghost var p := (key, old_ + "=" + value.value);
      Concat(before, FieldText(p), CRLF);
      FieldStep(request, done, p);
      i := i + 1;
      done := done + [p];
    }
    assert values[..i] == values;
  }

  /** Walks a copy of the list with its cursor, so the caller's cursor stays where it is. */
  method AppendProperties(request: string, key: string, properties: Properties) returns (r: string)
    requires properties.Valid()
    ensures r == request + FieldLines(PropertyFields(key, properties.entries))
  {
    hide FieldLines, Properties.Valid, Vector.Valid, PropertyFields, ReplacedFields;
    var clone := properties.Clone();
    clone.ResetPointer();
    r := request;
    ghost var entries := properties.entries;
    NoFields(request);
    NoProperties(key);
    var next := clone.GetNextKey();
    ghost var i := 0;
    assert entries[..0] == [];
    while next.Some?
      invariant clone.Valid() && fresh(clone.Repr) && clone.entries == entries && i <= |entries|
      invariant if next.Some? then i < |entries| && next.value == entries[i].key && clone.cursor == i + 1 else i == |entries|
      invariant r == request + FieldLines(PropertyFields(key, entries[..i]))
      decreases |entries| - i
    {
      r := AppendValues(r, key, clone, next.value, i);
      PropertyStep(request, key, entries, i);
      next := clone.GetNextKey();
      i := i + 1;
    }
    assert entries[..i] == entries;
  }

  /** The values of one key of the list. */
  method AppendValues(request: string, key: string, properties: Properties, next: string, ghost i: nat) returns (r: string)
    requires properties.Valid() && i < |properties.entries| && next == properties.entries[i].key
    ensures r == request + FieldLines(ReplacedFields(key, next, properties.entries[i].values))
  {
    hide FieldLines, Properties.Valid, Vector.Valid, ReplacedFields;
    properties.OwnKey(i);
    var vector := properties.GetProperty(next);
    vector.LinkedIfValid();
    r := AppendReplaced(request, key, next, vector);
  }

  lemma NoProperties(key: string)
    ensures PropertyFields(key, []) == []
  {}

  lemma PropertyStep(request: string, key: string, entries: seq<Entry>, i: nat)
    requires i < |entries|
    ensures request + FieldLines(PropertyFields(key, entries[..i])) + FieldLines(ReplacedFields(key, entries[i].key, entries[i].values))
            == request + FieldLines(PropertyFields(key, entries[..i + 1]))
  {
    var m := entries[..i + 1];
    assert m[..i] == entries[..i] && m[i] == entries[i];
    var a, b := PropertyFields(key, entries[..i]), ReplacedFields(key, entries[i].key, entries[i].values);
    FieldLinesAppend(a, b);
    Concat(request, FieldLines(a), FieldLines(b));
  }
}
