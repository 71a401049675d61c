/** The shell's CSV writer and its field-by-field reader (section 2 of RFC 4180). */
module Csv {
  import opened Wrappers
  import opened Bytes

  const QUOTE: byte := 34
  const NEWLINE: byte := 10
  const CR: byte := 13
  const EOF := -1

  /** One-byte separators that leave quoting and line ends recognisable. */
  predicate GoodSeparator(sep: byte) {
    sep != QUOTE && sep != CR && sep != NEWLINE && sep != 0
  }

  // ---------- Writer ----------

  /** The entries of `needCsvQuote` that are 1. */
  predicate NeedsQuote(c: byte) {
    c <= 32 || c == QUOTE || c == 39 || c >= 127
  }

  predicate MustQuote(sep: byte, z: seq<byte>) {
    z == [] || exists i :: 0 <= i < |z| && (NeedsQuote(z[i]) || z[i] == sep)
  }

  function Doubled(z: seq<byte>): seq<byte> {
    if z == [] then []
    else (if z[0] == QUOTE then [QUOTE, QUOTE] else [z[0]]) + Doubled(z[1..])
  }

  function Written(sep: byte, z: seq<byte>): seq<byte> {
    if MustQuote(sep, z) then [QUOTE] + Doubled(z) + [QUOTE] else z
  }

  lemma {:induction false} DoubledSnoc(z: seq<byte>, c: byte)
    ensures Doubled(z + [c]) == Doubled(z) + if c == QUOTE then [QUOTE, QUOTE] else [c]
  {
    if z == [] {
      assert z + [c] == [c];
      assert Doubled([c][1..]) == [];
    } else {
      assert (z + [c])[1..] == z[1..] + [c];
      DoubledSnoc(z[1..], c);
    }
  }

  /** `output_csv` for a non-null value. */
  method OutputCsv(sep: byte, z: seq<byte>, bSep: bool) returns (out: seq<byte>)
    ensures out == Written(sep, z) + if bSep then [sep] else []
  {
    var i := 0;
    while i < |z|
      invariant 0 <= i <= |z|
      invariant forall j :: 0 <= j < i ==> !NeedsQuote(z[j]) && z[j] != sep
    {
      if NeedsQuote(z[i]) || z[i] == sep {
        assert MustQuote(sep, z);
        i := 0;
        break;
      }
      i := i + 1;
    }
    if i == 0 {
      out := [QUOTE];
      i := 0;
      while i < |z|
        invariant 0 <= i <= |z|
        invariant out == [QUOTE] + Doubled(z[..i])
      {
        DoubledSnoc(z[..i], z[i]);
        assert z[..i + 1] == z[..i] + [z[i]];
        if z[i] == QUOTE {
          out := out + [QUOTE];
        }
        out := out + [z[i]];
        i := i + 1;
      }
      assert z[..i] == z;
      out := out + [QUOTE];
    } else {
      out := z;
    }
    if bSep {
      out := out + [sep];
    }
  }

  function WrittenRow(sep: byte, row: seq<seq<byte>>): seq<byte>
    requires row != []
  {
    Written(sep, row[0]) + if |row| == 1 then [NEWLINE] else [sep] + WrittenRow(sep, row[1..])
  }

  function WrittenFile(sep: byte, rows: seq<seq<seq<byte>>>): seq<byte>
    requires forall i :: 0 <= i < |rows| ==> rows[i] != []
  {
    if rows == [] then [] else WrittenRow(sep, rows[0]) + WrittenFile(sep, rows[1..])
  }

  // ---------- Reader ----------

  /** The text of a field, what ended it, and the input behind it. */
  datatype Field = Field(text: seq<byte>, term: int, rest: seq<byte>)

  /** Drops the last quote and what follows it. */
  function Strip(z: seq<byte>): seq<byte>
    requires QUOTE in z
  {
    if z[|z| - 1] == QUOTE then z[..|z| - 1] else Strip(z[..|z| - 1])
  }

  /** The last bytes remembered by the quote state machine are the ones stored last. */
  predicate Remembered(z: seq<byte>, pc: int, ppc: int) {
    && (pc == QUOTE ==> z != [] && z[|z| - 1] == QUOTE)
    && (pc == CR && ppc == QUOTE ==> |z| >= 2 && z[|z| - 2] == QUOTE)
    && (pc == CR ==> z != [] && z[|z| - 1] == CR)
  }

  /** Whether `c` ends a quoted field whose two last bytes were `pc` and, before it, `ppc`. */
  predicate Ends(c: int, sep: int, pc: int, ppc: int) {
    || (pc == QUOTE && (c == sep || c == NEWLINE || c == EOF))
    || (c == NEWLINE && pc == CR && ppc == QUOTE)
  }

  function Quoted(s: seq<byte>, sep: int, z: seq<byte>, pc: int, ppc: int): Field
    requires Remembered(z, pc, ppc)
    decreases |s|
  {
    var c: int := if s == [] then EOF else s[0];
    var rest := if s == [] then [] else s[1..];
    if c == QUOTE && pc == QUOTE then Quoted(rest, sep, z, 0, ppc)
    else if Ends(c, sep, pc, ppc) then Field(Strip(z), c, rest)
    else if s == [] then Field(z, EOF, [])
    else Quoted(rest, sep, z + [s[0]], c, pc)
  }

  function Plain(s: seq<byte>, sep: int, z: seq<byte>): Field
    decreases |s|
  {
    var c: int := if s == [] then EOF else s[0];
    if c == NEWLINE then Field(if z != [] && z[|z| - 1] == CR then z[..|z| - 1] else z, c, s[1..])
    else if s == [] || c == sep then Field(z, c, if s == [] then [] else s[1..])
    else Plain(s[1..], sep, z + [s[0]])
  }

  /** One field of non-empty input. */
  function ReadField(s: seq<byte>, sep: int): Field
    requires s != []
  {
    if s[0] == QUOTE then Quoted(s[1..], sep, [], 0, 0) else Plain(s, sep, [])
  }

  /** The reader with its input position and the buffer for the current field. */
  class Reader {
    const input: seq<byte>
    const cSeparator: int
    var pos: nat
    var z: seq<byte>
    // Whether the field buffer exists yet; before the first stored byte it is a null pointer.
    var hasBuffer: bool
    var cTerm: int

    ghost predicate Valid()
      reads this
    {
      pos <= |input|
    }

    constructor (input: seq<byte>, sep: int)
      ensures Valid() && this.input == input && cSeparator == sep && pos == 0 && !hasBuffer
    {
      this.input, cSeparator := input, sep;
      pos, z, hasBuffer, cTerm := 0, [], false, 0;
    }

    method Getc() returns (c: int)
      requires Valid()
      modifies this`pos
      ensures Valid()
      ensures old(pos) < |input| ==> c == input[old(pos)] && pos == old(pos) + 1
      ensures old(pos) == |input| ==> c == EOF && pos == old(pos)
    {
      if pos < |input| {
        c := input[pos];
        pos := pos + 1;
      } else {
        c := EOF;
      }
    }

    /** Takes the bytes from the closing quote on off the buffer. */
    method StripQuote()
      requires QUOTE in z
      modifies this`z
      ensures z == Strip(old(z))
    {
      while z[|z| - 1] != QUOTE
        invariant QUOTE in z && Strip(z) == Strip(old(z))
        decreases |z|
      {
        z := z[..|z| - 1];
      }
      z := z[..|z| - 1];
    }

    /** The quote state machine, entered after the opening quote. */
    method ReadQuoted()
      requires Valid() && z == []
      modifies this
      ensures Valid()
      ensures Field(z, cTerm, input[pos..]) == Quoted(old(input[pos..]), cSeparator, [], 0, 0)
      ensures old(hasBuffer) ==> hasBuffer
      ensures z != [] ==> hasBuffer
      ensures old(pos) < |input| && input[old(pos)] == QUOTE ==> hasBuffer
    {
      ghost var want := Quoted(input[pos..], cSeparator, [], 0, 0);
      var pc, ppc := 0, 0;
      while true
        invariant Valid() && Remembered(z, pc, ppc)
        invariant want == Quoted(input[pos..], cSeparator, z, pc, ppc)
        invariant old(hasBuffer) ==> hasBuffer
        invariant z != [] ==> hasBuffer
        invariant old(pos) <= pos && (pos == old(pos) ==> pc == 0)
        invariant old(pos) < pos && input[old(pos)] == QUOTE ==> hasBuffer
        decreases |input| - pos
      {
        ghost var s := input[pos..];
        var c := Getc();
        assert s != [] ==> input[pos..] == s[1..];
        if c == QUOTE && pc == QUOTE {
          pc := 0;
          continue;
        }
        if Ends(c, cSeparator, pc, ppc) {
          StripQuote();
          cTerm := c;
          return;
        }
        if c == EOF {
          cTerm := EOF;
          return;
        }
        z, hasBuffer := z + [c], true;
        ppc := pc;
        pc := c;
      }
    }

    method ReadPlain(first: int)
      requires Valid() && z == [] && 0 < pos && first == input[pos - 1]
      modifies this
      ensures Valid()
      ensures Field(z, cTerm, input[pos..]) == Plain(old(input[pos - 1..]), cSeparator, [])
      ensures old(hasBuffer) ==> hasBuffer
      ensures z != [] ==> hasBuffer
    {
      ghost var want := Plain(input[pos - 1..], cSeparator, []);
      var c := first;
      while c != EOF && c != cSeparator && c != NEWLINE
        invariant Valid() && (c == EOF ==> pos == |input|)
        invariant c != EOF ==> 0 < pos && c == input[pos - 1]
        invariant want == Plain(if c == EOF then [] else input[pos - 1..], cSeparator, z)
        invariant old(hasBuffer) ==> hasBuffer
        invariant z != [] ==> hasBuffer
        decreases |input| - pos, c != EOF
      {
        ghost var s := input[pos - 1..];
        z, hasBuffer := z + [c], true;
        c := Getc();
        assert s[1..] == if c == EOF then [] else input[pos - 1..];
      }
      assert c != EOF ==> input[pos - 1..][1..] == input[pos..];
      if c == NEWLINE && z != [] && z[|z| - 1] == CR {
        z := z[..|z| - 1];
      }
      cTerm := c;
    }

    /** `csv_read_one_field`; the result is null at the end of the input. */
    method ReadOneField() returns (field: Option<seq<byte>>)
      requires Valid()
      modifies this
      ensures Valid()
      ensures old(pos) == |input| ==> field == None && cTerm == EOF && pos == old(pos)
      ensures old(pos) < |input| ==>
        && Field(z, cTerm, input[pos..]) == ReadField(old(input[pos..]), cSeparator)
        && field == if hasBuffer then Some(z) else None
      ensures old(hasBuffer) ==> hasBuffer
      ensures z != [] ==> old(pos) == |input| || hasBuffer
      ensures old(pos) + 1 < |input| && input[old(pos)] == QUOTE && input[old(pos) + 1] == QUOTE ==> hasBuffer
    {
      z := [];
      ghost var s := input[pos..];
      var c := Getc();
      if c == EOF {
        cTerm := EOF;
        return None;
      }
      assert s[1..] == input[pos..] && s == input[pos - 1..];
      if c == QUOTE {
        ReadQuoted();
      } else {
        ReadPlain(c);
      }
      field := if hasBuffer then Some(z) else None;
    }
  }

  // ---------- Round trip ----------

  /** Between two doubled or ordinary bytes the machine never takes a byte for a terminator. */
  lemma {:induction false} QuotedReads(w: seq<byte>, sep: int, z: seq<byte>, pc: int, ppc: int, t: byte, rest: seq<byte>)
    requires Remembered(z, pc, ppc) && pc != QUOTE && !(pc == CR && ppc == QUOTE)
    requires sep != QUOTE && (t == sep || t == NEWLINE) && t != QUOTE
    ensures Quoted(Doubled(w) + [QUOTE, t] + rest, sep, z, pc, ppc) == Field(z + w, t, rest)
    decreases |w|
  {
    var s := Doubled(w) + [QUOTE, t] + rest;
    if w == [] {
      assert s == [QUOTE, t] + rest;
      var s1 := [t] + rest;
      assert s[1..] == s1 && s1[1..] == rest;
      assert (z + [QUOTE])[..|z|] == z;
      assert Quoted(s1, sep, z + [QUOTE], QUOTE, pc) == Field(z, t, rest);
      assert z + w == z;
    } else {
      var more := Doubled(w[1..]) + [QUOTE, t] + rest;
      assert z + w == (z + [w[0]]) + w[1..];
      if w[0] == QUOTE {
        assert s == [QUOTE, QUOTE] + more;
        assert s[1..] == [QUOTE] + more && s[1..][1..] == more;
        QuotedReads(w[1..], sep, z + [QUOTE], 0, pc, t, rest);
      } else {
        assert s == [w[0]] + more;
        assert s[1..] == more;
        QuotedReads(w[1..], sep, z + [w[0]], w[0], pc, t, rest);
      }
    }
  }

  lemma {:induction false} PlainReads(w: seq<byte>, sep: int, z: seq<byte>, t: byte, rest: seq<byte>)
    requires forall i :: 0 <= i < |w| ==> w[i] != sep && w[i] != NEWLINE
    requires t == sep || t == NEWLINE
    requires t == NEWLINE ==> z + w == [] || (z + w)[|z + w| - 1] != CR
    ensures Plain(w + [t] + rest, sep, z) == Field(z + w, t, rest)
    decreases |w|
  {
    var s := w + [t] + rest;
    if w == [] {
      assert s[1..] == rest && z + w == z;
    } else {
      assert s[1..] == w[1..] + [t] + rest;
      assert z + w == (z + [w[0]]) + w[1..];
      PlainReads(w[1..], sep, z + [w[0]], t, rest);
    }
  }

  lemma Peel(d: seq<byte>, t: byte, rest: seq<byte>)
    ensures ([QUOTE] + d + [QUOTE] + [t] + rest)[1..] == d + [QUOTE, t] + rest
  {
  }

  /** A written field followed by a terminator reads back as the original text. */
  lemma FieldRoundTrip(sep: byte, w: seq<byte>, t: byte, rest: seq<byte>)
    requires GoodSeparator(sep) && (t == sep || t == NEWLINE)
    ensures ReadField(Written(sep, w) + [t] + rest, sep) == Field(w, t, rest)
  {
    var s := Written(sep, w) + [t] + rest;
    if MustQuote(sep, w) {
      Peel(Doubled(w), t, rest);
      QuotedReads(w, sep, [], 0, 0, t, rest);
      assert [] + w == w;
    } else {
      assert !NeedsQuote(w[0]) && !NeedsQuote(w[|w| - 1]);
      assert [] + w == w;
      PlainReads(w, sep, [], t, rest);
    }
  }

  /** What reading a file field by field yields: texts with their terminators. */
  function ReadFile(s: seq<byte>, sep: int): seq<(seq<byte>, int)>
    decreases |s|
  {
    if s == [] then []
    else
      var f := ReadField(s, sep);
      [(f.text, f.term)] + if |f.rest| < |s| then ReadFile(f.rest, sep) else []
  }

  function RowFields(sep: byte, row: seq<seq<byte>>): seq<(seq<byte>, int)>
    requires row != []
  {
    if |row| == 1 then [(row[0], NEWLINE)] else [(row[0], sep)] + RowFields(sep, row[1..])
  }

  function FileFields(sep: byte, rows: seq<seq<seq<byte>>>): seq<(seq<byte>, int)>
    requires forall i :: 0 <= i < |rows| ==> rows[i] != []
  {
    if rows == [] then [] else RowFields(sep, rows[0]) + FileFields(sep, rows[1..])
  }

  /** One field, its terminator, and what the reader makes of the rest. */
  lemma FieldThen(s: seq<byte>, sep: byte, w: seq<byte>, t: byte, rest: seq<byte>, fields: seq<(seq<byte>, int)>)
    requires GoodSeparator(sep) && (t == sep || t == NEWLINE)
    requires s == Written(sep, w) + [t] + rest && fields == ReadFile(rest, sep)
    ensures ReadFile(s, sep) == [(w, t as int)] + fields
  {
    FieldRoundTrip(sep, w, t, rest);
  }

  lemma {:induction false} RowRoundTrip(sep: byte, row: seq<seq<byte>>, rest: seq<byte>, fields: seq<(seq<byte>, int)>)
    requires GoodSeparator(sep) && row != [] && fields == ReadFile(rest, sep)
    ensures ReadFile(WrittenRow(sep, row) + rest, sep) == RowFields(sep, row) + fields
    decreases |row|
  {
    var w := Written(sep, row[0]);
    var s := WrittenRow(sep, row) + rest;
    if |row| == 1 {
      FieldThen(s, sep, row[0], NEWLINE, rest, fields);
    } else {
      var more := WrittenRow(sep, row[1..]) + rest;
      Refit(w, sep, WrittenRow(sep, row[1..]), rest);
      RowRoundTrip(sep, row[1..], rest, fields);
      FieldThen(s, sep, row[0], sep, more, RowFields(sep, row[1..]) + fields);
      Regroup([(row[0], sep as int)], RowFields(sep, row[1..]), fields);
    }
  }

  lemma Refit(w: seq<byte>, t: byte, more: seq<byte>, rest: seq<byte>)
    ensures (w + ([t] + more)) + rest == w + [t] + (more + rest)
  {
  }

  /** Reading a written file returns every field of every row with the right terminators. */
  lemma {:induction false} FileRoundTrip(sep: byte, rows: seq<seq<seq<byte>>>)
    requires GoodSeparator(sep) && forall i :: 0 <= i < |rows| ==> rows[i] != []
    ensures ReadFile(WrittenFile(sep, rows), sep) == FileFields(sep, rows)
    decreases |rows|
  {
    if rows != [] {
      FileRoundTrip(sep, rows[1..]);
      RowRoundTrip(sep, rows[0], WrittenFile(sep, rows[1..]), FileFields(sep, rows[1..]));
    }
  }

  // ---------- The same, through the calls themselves ----------

  /** One row in CSV mode. */
  method WriteRow(sep: byte, row: seq<seq<byte>>) returns (out: seq<byte>)
    requires row != []
    ensures out == WrittenRow(sep, row)
    decreases |row|
  {
    out := OutputCsv(sep, row[0], 1 < |row|);
    if |row| == 1 {
      out := out + [NEWLINE];
    } else {
      var more := WriteRow(sep, row[1..]);
      assert Written(sep, row[0]) + [sep] + more == Written(sep, row[0]) + ([sep] + more);
      out := out + more;
    }
  }

  /** Reads fields until one does not end at a separator; on a written row none of them is null. */
  method ReadRow(r: Reader, sep: byte, ghost row: seq<seq<byte>>, ghost rest: seq<byte>)
      returns (fields: seq<Option<seq<byte>>>)
    requires r.Valid() && r.cSeparator == sep && GoodSeparator(sep)
    requires row != [] && r.input[r.pos..] == WrittenRow(sep, row) + rest
    modifies r
    ensures r.Valid() && r.input[r.pos..] == rest && r.cTerm == NEWLINE
    ensures |fields| == |row| && forall i :: 0 <= i < |row| ==> fields[i] == Some(row[i])
    decreases |row|
  {
    ghost var t: byte := if |row| == 1 then NEWLINE else sep;
    ghost var more := if |row| == 1 then rest else WrittenRow(sep, row[1..]) + rest;
    ghost var s := r.input[r.pos..];
    assert s == Written(sep, row[0]) + [t] + more;
    FieldRoundTrip(sep, row[0], t, more);
    if row[0] == [] {
      EmptyIsQuoted(sep, t, more);
      assert r.input[r.pos] == s[0] && r.input[r.pos + 1] == s[1];
    }
    var first := r.ReadOneField();
    fields := [first];
    if r.cTerm == sep {
      var others := ReadRow(r, sep, row[1..], rest);
      fields := fields + others;
    }
  }

  lemma EmptyIsQuoted(sep: byte, t: byte, more: seq<byte>)
    ensures var s := Written(sep, []) + [t] + more; |s| > 1 && s[0] == QUOTE && s[1] == QUOTE
  {
  }

  // ---------- Separators on platforms with signed characters ----------

  /** The value that `.import` passes on for a separator byte when `char` is signed. */
  function SignedChar(c: byte): int {
    if c < 128 then c else c - 256
  }

  lemma {:induction false} QuotedTerm(s: seq<byte>, sep: int, z: seq<byte>, pc: int, ppc: int)
    requires Remembered(z, pc, ppc)
    ensures var t := Quoted(s, sep, z, pc, ppc).term; t == EOF || t == NEWLINE || t == sep
    decreases |s|
  {
    var c: int := if s == [] then EOF else s[0];
    var rest := if s == [] then [] else s[1..];
    if c == QUOTE && pc == QUOTE {
      QuotedTerm(rest, sep, z, 0, ppc);
    } else if s != [] && !Ends(c, sep, pc, ppc) {
      QuotedTerm(rest, sep, z + [s[0]], c, pc);
    }
  }

  lemma {:induction false} PlainTerm(s: seq<byte>, sep: int, z: seq<byte>)
    ensures var t := Plain(s, sep, z).term; t == EOF || t == NEWLINE || t == sep
    decreases |s|
  {
    if s != [] && s[0] != NEWLINE && s[0] != sep {
      PlainTerm(s[1..], sep, z + [s[0]]);
    }
  }

  /**
   With a signed `char` the import reads back what the writer separated by `sep` exactly
   for separators below 128: above, no field ever ends at a separator.
   */
  lemma SignedSeparator(sep: byte, s: seq<byte>, w: seq<byte>, rest: seq<byte>)
    requires GoodSeparator(sep) && s != []
    ensures sep < 128 ==> ReadField(Written(sep, w) + [sep] + rest, SignedChar(sep)) == Field(w, sep, rest)
    ensures sep >= 128 ==> ReadField(s, SignedChar(sep)).term != sep
  {
    if sep < 128 {
      FieldRoundTrip(sep, w, sep, rest);
    } else if s[0] == QUOTE {
      QuotedTerm(s[1..], SignedChar(sep), [], 0, 0);
    } else {
      PlainTerm(s, SignedChar(sep), []);
    }
  }

  /** Where the signed separator is no byte, a field at the end of its line still reads back. */
  lemma LineEndRoundTrip(sep: byte, got: int, w: seq<byte>, rest: seq<byte>)
    requires GoodSeparator(sep) && got < 0
    ensures ReadField(Written(sep, w) + [NEWLINE] + rest, got) == Field(w, NEWLINE, rest)
  {
    assert [] + w == w;
    if MustQuote(sep, w) {
      Peel(Doubled(w), NEWLINE, rest);
      QuotedReads(w, got, [], 0, 0, NEWLINE, rest);
    } else {
      assert !NeedsQuote(w[0]) && !NeedsQuote(w[|w| - 1]);
      PlainReads(w, got, [], NEWLINE, rest);
    }
  }

  /** The first terminator that the import reports is not a separator of 128 or more. */
  lemma FirstTerminator(sep: byte, s: seq<byte>)
    requires GoodSeparator(sep) && sep >= 128 && s != []
    ensures ReadFile(s, SignedChar(sep))[0].1 != sep
  {
    SignedSeparator(sep, s, [], []);
  }

  /** Through a signed `char` a written row reads back exactly if the separator is below 128 or not needed. */
  lemma SignedRow(sep: byte, row: seq<seq<byte>>, rest: seq<byte>)
    requires GoodSeparator(sep) && row != []
    ensures ReadFile(WrittenRow(sep, row) + rest, SignedChar(sep))
              == RowFields(sep, row) + ReadFile(rest, SignedChar(sep))
       <==> sep < 128 || |row| == 1
  {
    var s := WrittenRow(sep, row) + rest;
    if sep < 128 {
      RowRoundTrip(sep, row, rest, ReadFile(rest, sep));
    } else if |row| == 1 {
      assert s == Written(sep, row[0]) + [NEWLINE] + rest;
      LineEndRoundTrip(sep, SignedChar(sep), row[0], rest);
    } else {
      FirstTerminator(sep, s);
      assert RowFields(sep, row)[0] == (row[0], sep as int);
    }
  }

  lemma SamePrefix<T>(a: seq<T>, b: seq<T>, c: seq<T>)
    ensures a + b == a + c <==> b == c
  {
    if a + b == a + c {
      assert b == (a + b)[|a|..] == (a + c)[|a|..] == c;
    }
  }

  /** And a written file exactly if the separator is below 128 or no row needs it. */
  lemma {:induction false} SignedFile(sep: byte, rows: seq<seq<seq<byte>>>)
    requires GoodSeparator(sep) && forall i :: 0 <= i < |rows| ==> rows[i] != []
    ensures ReadFile(WrittenFile(sep, rows), SignedChar(sep)) == FileFields(sep, rows)
       <==> sep < 128 || forall i :: 0 <= i < |rows| ==> |rows[i]| == 1
    decreases |rows|
  {
    if sep < 128 {
      FileRoundTrip(sep, rows);
    } else if rows != [] {
      var more := WrittenFile(sep, rows[1..]);
      if |rows[0]| == 1 {
        SignedRow(sep, rows[0], more);
        SignedFile(sep, rows[1..]);
        SamePrefix(RowFields(sep, rows[0]), ReadFile(more, SignedChar(sep)), FileFields(sep, rows[1..]));
        assert forall i :: 0 < i < |rows| ==> rows[i] == rows[1..][i - 1];
      } else {
        FirstTerminator(sep, WrittenRow(sep, rows[0]) + more);
        assert RowFields(sep, rows[0])[0] == (rows[0][0], sep as int);
      }
    }
  }

  // ---------- When fields are quoted, and other line ends ----------

  lemma {:induction false} DoubledLength(z: seq<byte>)
    ensures |Doubled(z)| >= |z|
  {
    if z != [] {
      DoubledLength(z[1..]);
    }
  }

  /** A field goes out as it is exactly if it is not empty and has only visible bytes other than quotes and separator. */
  lemma UnquotedExactly(sep: byte, z: seq<byte>)
    ensures Written(sep, z) == z <==>
      z != [] && forall i :: 0 <= i < |z| ==> 33 <= z[i] <= 126 && z[i] != 34 && z[i] != 39 && z[i] != sep
  {
    DoubledLength(z);
  }

  /** One carriage return at the end of a line. */
  function Chomped(z: seq<byte>): seq<byte> {
    if z != [] && z[|z| - 1] == CR then z[..|z| - 1] else z
  }

  lemma {:induction false} PlainLine(w: seq<byte>, sep: int, z: seq<byte>, rest: seq<byte>)
    requires forall i :: 0 <= i < |w| ==> w[i] != sep && w[i] != NEWLINE
    ensures Plain(w + [NEWLINE] + rest, sep, z) == Field(Chomped(z + w), NEWLINE, rest)
    decreases |w|
  {
    var s := w + [NEWLINE] + rest;
    if w == [] {
      assert s[1..] == rest && z + w == z;
    } else {
      assert s[1..] == w[1..] + [NEWLINE] + rest;
      assert z + w == (z + [w[0]]) + w[1..];
      PlainLine(w[1..], sep, z + [w[0]], rest);
    }
  }

  /** A line that ends in CR LF (section 2 of RFC 4180) loses both, and no more. */
  lemma PlainCrLf(w: seq<byte>, sep: byte, rest: seq<byte>)
    requires GoodSeparator(sep) && (w == [] || w[0] != QUOTE)
    requires forall i :: 0 <= i < |w| ==> w[i] != sep && w[i] != NEWLINE
    ensures ReadField(w + [CR, NEWLINE] + rest, sep) == Field(w, NEWLINE, rest)
  {
    var line := w + [CR];
    assert w + [CR, NEWLINE] + rest == line + [NEWLINE] + rest;
    PlainLine(line, sep, [], rest);
    assert [] + line == line && line[..|w|] == w;
  }

  /** The last field of a file without a final line end. */
  lemma {:induction false} PlainEof(w: seq<byte>, sep: int, z: seq<byte>)
    requires forall i :: 0 <= i < |w| ==> w[i] != sep && w[i] != NEWLINE
    ensures Plain(w, sep, z) == Field(z + w, EOF, [])
    decreases |w|
  {
    if w == [] {
      assert z + w == z;
    } else {
      assert z + w == (z + [w[0]]) + w[1..];
      PlainEof(w[1..], sep, z + [w[0]]);
    }
  }

  /** After the doubled text of a quoted field and its closing quote the machine has stored both. */
  lemma {:induction false} QuotedReaches(w: seq<byte>, sep: int, z: seq<byte>, pc: int, ppc: int, tail: seq<byte>) returns (last: int)
    requires Remembered(z, pc, ppc) && pc != QUOTE && !(pc == CR && ppc == QUOTE) && sep != QUOTE
    ensures Remembered(z + w + [QUOTE], QUOTE, last)
    ensures Quoted(Doubled(w) + [QUOTE] + tail, sep, z, pc, ppc) == Quoted(tail, sep, z + w + [QUOTE], QUOTE, last)
    decreases |w|
  {
    var s := Doubled(w) + [QUOTE] + tail;
    if w == [] {
      last := pc;
      assert s[1..] == tail && z + w + [QUOTE] == z + [QUOTE];
    } else {
      var more := Doubled(w[1..]) + [QUOTE] + tail;
      assert z + w + [QUOTE] == (z + [w[0]]) + w[1..] + [QUOTE];
      if w[0] == QUOTE {
        assert s == [QUOTE, QUOTE] + more;
        assert s[1..] == [QUOTE] + more && s[1..][1..] == more;
        last := QuotedReaches(w[1..], sep, z + [QUOTE], 0, pc, tail);
      } else {
        assert s == [w[0]] + more;
        assert s[1..] == more;
        last := QuotedReaches(w[1..], sep, z + [w[0]], w[0], pc, tail);
      }
    }
  }

  /** A quoted field before CR LF. */
  lemma QuotedCrLf(w: seq<byte>, sep: byte, rest: seq<byte>)
    requires GoodSeparator(sep)
    ensures ReadField([QUOTE] + Doubled(w) + [QUOTE, CR, NEWLINE] + rest, sep) == Field(w, NEWLINE, rest)
  {
    var tail := [CR, NEWLINE] + rest;
    var s := [QUOTE] + Doubled(w) + [QUOTE, CR, NEWLINE] + rest;
    assert s[1..] == Doubled(w) + [QUOTE] + tail;
    var last := QuotedReaches(w, sep, [], 0, 0, tail);
    CrLfEnds(w, sep, last, rest);
    assert [] + w + [QUOTE] == w + [QUOTE];
  }

  lemma CrLfEnds(w: seq<byte>, sep: byte, last: int, rest: seq<byte>)
    requires GoodSeparator(sep) && Remembered(w + [QUOTE], QUOTE, last)
    ensures Quoted([CR, NEWLINE] + rest, sep, w + [QUOTE], QUOTE, last) == Field(w, NEWLINE, rest)
  {
    var tail, z := [CR, NEWLINE] + rest, w + [QUOTE] + [CR];
    assert tail[1..] == [NEWLINE] + rest && tail[1..][1..] == rest;
    assert z[|z| - 2] == QUOTE;
    assert Quoted(tail, sep, w + [QUOTE], QUOTE, last) == Quoted(tail[1..], sep, z, CR, QUOTE);
    assert Quoted(tail[1..], sep, z, CR, QUOTE) == Field(Strip(z), NEWLINE, rest);
    assert z[..|z| - 1] == w + [QUOTE] && (w + [QUOTE])[..|w|] == w;
    assert Strip(z) == Strip(w + [QUOTE]) == w;
  }
}
