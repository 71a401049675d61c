/** C-string quoting in the shell and the dot-command tokenizer that undoes it in place. */
module Escape {
  import opened Wrappers
  import opened Bytes

  const QUOTE: byte := 34
  const APOSTROPHE: byte := 39
  const BACKSLASH: byte := 92
  const SPACE: byte := 32
  const ZERO: byte := 48
  const MAX_ARGS := 50

  predicate IsPrint(c: byte) {
    32 <= c < 127
  }

  predicate IsSpace(c: byte) {
    9 <= c <= 13 || c == SPACE
  }

  predicate IsOctal(c: byte) {
    48 <= c < 56
  }

  // ---------- Printing ----------

  function EscapedByte(c: byte): (r: seq<byte>)
    ensures r != []
  {
    if c == BACKSLASH then [BACKSLASH, BACKSLASH]
    else if c == QUOTE then [BACKSLASH, QUOTE]
    else if c == 9 then [BACKSLASH, 116]
    else if c == 10 then [BACKSLASH, 110]
    else if c == 13 then [BACKSLASH, 114]
    else if !IsPrint(c) then [BACKSLASH, ZERO + c / 64, ZERO + c / 8 % 8, ZERO + c % 8]
    else [c]
  }

  function EscapedText(z: seq<byte>): seq<byte> {
    if z == [] then [] else EscapedByte(z[0]) + EscapedText(z[1..])
  }

  lemma {:induction false} EscapedSnoc(z: seq<byte>, c: byte)
    ensures EscapedText(z + [c]) == EscapedText(z) + EscapedByte(c)
  {
    if z == [] {
      assert z + [c] == [c] && [c][1..] == [];
      assert EscapedText([c]) == EscapedByte(c) + [];
    } else {
      assert (z + [c])[1..] == z[1..] + [c];
      EscapedSnoc(z[1..], c);
    }
  }

  /** `output_c_string`. */
  method OutputCString(z: seq<byte>) returns (out: seq<byte>)
    ensures out == [QUOTE] + EscapedText(z) + [QUOTE]
  {
    out := [QUOTE];
    for i := 0 to |z|
      invariant out == [QUOTE] + EscapedText(z[..i])
    {
      assert z[..i + 1] == z[..i] + [z[i]];
      EscapedSnoc(z[..i], z[i]);
      out := out + EscapedByte(z[i]);
    }
    assert z[..|z|] == z;
    out := out + [QUOTE];
  }

  // ---------- Resolving escapes ----------

  /** What an octal value of three digits leaves in a `char`. */
  function Low(v: int): byte
    requires 0 <= v < 512
  {
    if v < 256 then v else v - 256
  }

  /** The byte that an escape stands for, and how many bytes after the backslash spell it. */
  function Unescape(s: seq<byte>): (r: (byte, nat))
    requires s != []
    ensures 1 <= r.1 <= |s|
  {
    var c := s[0];
    if c == 110 then (10, 1)
    else if c == 116 then (9, 1)
    else if c == 114 then (13, 1)
    else if IsOctal(c) then
      if |s| > 1 && IsOctal(s[1]) then
        if |s| > 2 && IsOctal(s[2]) then
          (Low(((c - ZERO) * 8 + s[1] - ZERO) * 8 + s[2] - ZERO), 3)
        else ((c - ZERO) * 8 + s[1] - ZERO, 2)
      else (c - ZERO, 1)
    else (c, 1)
  }

  /** The first byte that `s` stands for, and how many bytes of `s` spell it. */
  function FirstByte(s: seq<byte>): (r: (byte, nat))
    requires s != [] && s != [BACKSLASH]
    ensures 1 <= r.1 <= |s|
  {
    if s[0] != BACKSLASH then (s[0], 1)
    else (Unescape(s[1..]).0, 1 + Unescape(s[1..]).1)
  }

  /** The text with escapes resolved; nothing if it ends in a lone backslash. */
  function Resolve(s: seq<byte>): (r: Option<seq<byte>>)
    ensures r.Some? ==> |r.value| <= |s|
  {
    if s == [] then Some([])
    else if s == [BACKSLASH] then None
    else
      var (c, n) := FirstByte(s);
      var t := Resolve(s[n..]);
      if t.None? then None else Some([c] + t.value)
  }

  /** The backslashes at the very end of a text. */
  function Trailing(s: seq<byte>): nat {
    if s == [] || s[|s| - 1] != BACKSLASH then 0 else 1 + Trailing(s[..|s| - 1])
  }

  lemma {:induction false} TrailingBehind(a: seq<byte>, b: seq<byte>)
    ensures Trailing(a + b) == if Trailing(b) < |b| then Trailing(b) else |b| + Trailing(a)
    decreases |b|
  {
    if b == [] {
      assert a + b == a;
    } else {
      assert (a + b)[..|a + b| - 1] == a + b[..|b| - 1];
      TrailingBehind(a, b[..|b| - 1]);
    }
  }

  lemma {:induction false} TrailingShort(s: seq<byte>)
    ensures Trailing(s) <= |s|
  {
    if s != [] {
      TrailingShort(s[..|s| - 1]);
    }
  }

  /** The bytes that spell one byte end in no backslash, or are an escaped one. */
  lemma UnitTrailing(s: seq<byte>)
    requires s != [] && s != [BACKSLASH]
    ensures var u := s[..FirstByte(s).1]; Trailing(u) == 0 || (Trailing(u) == |u| == 2)
  {
    var n := FirstByte(s).1;
    var u := s[..n];
    assert u[..|u| - 1] == s[..n - 1];
    if u[|u| - 1] == BACKSLASH {
      assert n == 2 && u == [BACKSLASH, BACKSLASH];
      assert u[..1] == [BACKSLASH] && u[..1][..0] == [];
      assert Trailing(u[..1]) == 1;
    }
  }

  lemma SameParity(s: seq<byte>, n: nat)
    requires n <= |s| && (Trailing(s[..n]) == 0 || Trailing(s[..n]) == 2)
    ensures Trailing(s) % 2 == Trailing(s[n..]) % 2
  {
    assert s == s[..n] + s[n..];
    TrailingShort(s[n..]);
    TrailingBehind(s[..n], s[n..]);
  }

  lemma ResolveRest(s: seq<byte>, n: nat)
    requires s != [] && s != [BACKSLASH] && n == FirstByte(s).1
    ensures Resolve(s).Some? <==> Resolve(s[n..]).Some?
  {
  }

  /** A text resolves exactly if the backslashes at its end pair up. */
  lemma {:induction false} ResolvesExactly(s: seq<byte>)
    ensures Resolve(s).Some? <==> Trailing(s) % 2 == 0
    decreases |s|
  {
    if s == [BACKSLASH] {
      assert s[..0] == [];
    } else if s != [] {
      var n := FirstByte(s).1;
      UnitTrailing(s);
      SameParity(s, n);
      ResolveRest(s, n);
      ResolvesExactly(s[n..]);
    }
  }

  /** Unescaping finds exactly the byte that was escaped, digits behind it notwithstanding. */
  lemma UnescapeEscaped(c: byte, more: seq<byte>)
    requires EscapedByte(c)[0] == BACKSLASH
    ensures var e := EscapedByte(c); Unescape((e + more)[1..]) == (c, |e| - 1)
  {
    var e := EscapedByte(c);
    assert (e + more)[1..] == e[1..] + more;
    if !IsPrint(c) {
      assert ((c / 64) * 8 + c / 8 % 8) * 8 + c % 8 == c;
    }
  }

  lemma FirstEscaped(c: byte, more: seq<byte>)
    ensures var e := EscapedByte(c); e + more != [BACKSLASH] && FirstByte(e + more) == (c, |e|)
  {
    if EscapedByte(c)[0] == BACKSLASH {
      UnescapeEscaped(c, more);
    }
  }

  lemma ResolveFirst(s: seq<byte>, e: seq<byte>, more: seq<byte>, z: seq<byte>)
    requires e != [] && z != [] && s == e + more && s != [BACKSLASH]
    requires FirstByte(s) == (z[0], |e|) && Resolve(more) == Some(z[1..])
    ensures Resolve(s) == Some(z)
  {
    assert s[|e|..] == more;
    assert [z[0]] + z[1..] == z;
  }

  lemma {:induction false} ResolveEscaped(z: seq<byte>)
    ensures Resolve(EscapedText(z)) == Some(z)
  {
    if z != [] {
      var e, more := EscapedByte(z[0]), EscapedText(z[1..]);
      ResolveEscaped(z[1..]);
      FirstEscaped(z[0], more);
      ResolveFirst(EscapedText(z), e, more, z);
    }
  }

  // ---------- What the escapes stand for ----------

  /** The letters that C gives to control characters, and the characters escaped by themselves. */
  lemma EscapeLetters()
    ensures EscapedByte('\n' as int) == ['\\' as int, 'n' as int] && Unescape(['n' as int]) == ('\n' as int, 1)
    ensures EscapedByte('\t' as int) == ['\\' as int, 't' as int] && Unescape(['t' as int]) == ('\t' as int, 1)
    ensures EscapedByte('\r' as int) == ['\\' as int, 'r' as int] && Unescape(['r' as int]) == ('\r' as int, 1)
    ensures EscapedByte('\\' as int) == ['\\' as int, '\\' as int] && Unescape(['\\' as int]) == ('\\' as int, 1)
    ensures EscapedByte('"' as int) == ['\\' as int, '"' as int] && Unescape(['"' as int]) == ('"' as int, 1)
  {
  }

  /** Visible characters other than these are printed as they are. */
  lemma PrintedPlain(c: byte)
    requires ' ' as int <= c <= '~' as int && c != '\\' as int && c != '"' as int
    ensures EscapedByte(c) == [c]
  {
  }

  /** Everything else is printed as three octal digits. */
  lemma PrintedOctal(c: byte)
    requires (c < ' ' as int || c > '~' as int) && c != '\n' as int && c != '\t' as int && c != '\r' as int
    ensures EscapedByte(c) == ['\\' as int, '0' as int + c / 64, '0' as int + c / 8 % 8, '0' as int + c % 8]
  {
  }

  /** One, two or three octal digits stand for the number they spell, cut to a byte. */
  lemma OctalEscapes(v: nat, rest: seq<byte>)
    requires rest == [] || !('0' as int <= rest[0] <= '7' as int)
    ensures v < 8 ==> Unescape(['0' as int + v] + rest) == (v, 1)
    ensures v < 64 ==> Unescape(['0' as int + v / 8, '0' as int + v % 8] + rest) == (v, 2)
  {
  }

  lemma OctalThree(v: nat, rest: seq<byte>)
    requires v < 512
    ensures Unescape(['0' as int + v / 64, '0' as int + v / 8 % 8, '0' as int + v % 8] + rest) == (v % 256, 3)
  {
    assert ((v / 64) * 8 + v / 8 % 8) * 8 + v % 8 == v;
  }

  // ---------- Tokens ----------

  /** Where a quoted token ends: at its delimiter or at the end of the line. */
  function QuotedEnd(s: seq<byte>, delim: byte): (n: nat)
    ensures n <= |s|
  {
    if s == [] || s[0] == delim then 0
    else if s[0] == BACKSLASH && delim == QUOTE && |s| > 1 then 2 + QuotedEnd(s[2..], delim)
    else 1 + QuotedEnd(s[1..], delim)
  }

  function WordEnd(s: seq<byte>): (n: nat)
    ensures n <= |s|
  {
    if s == [] || IsSpace(s[0]) then 0 else 1 + WordEnd(s[1..])
  }

  function Spaces(s: seq<byte>): (n: nat)
    ensures n <= |s|
  {
    if s == [] || !IsSpace(s[0]) then 0 else 1 + Spaces(s[1..])
  }

  /** The first token of a text that starts with one, and the bytes it takes up. */
  datatype Cut = Cut(text: Option<seq<byte>>, used: nat)

  function Past(end: nat, size: nat): nat {
    if end < size then end + 1 else end
  }

  function FirstTokenBy(res: seq<byte> -> Option<seq<byte>>, s: seq<byte>): (c: Cut)
    requires s != [] && !IsSpace(s[0])
    ensures 1 <= c.used <= |s|
  {
    if s[0] == QUOTE || s[0] == APOSTROPHE then
      var e := QuotedEnd(s[1..], s[0]);
      var text := s[1..][..e];
      Cut(if s[0] == QUOTE then res(text) else Some(text), 1 + Past(e, |s| - 1))
    else
      var e := WordEnd(s);
      Cut(res(s[..e]), Past(e, |s|))
  }

  function FirstToken(s: seq<byte>): Cut {
    if s == [] || IsSpace(s[0]) then Cut(None, 0) else FirstTokenBy(Resolve, s)
  }

  /** What comes next on a line: a token and what follows it, or a lone backslash. */
  datatype Next = End | Bad | Token(text: seq<byte>, rest: seq<byte>)

  function NextCutBy(first: seq<byte> -> Cut, s: seq<byte>): Next {
    var t := s[Spaces(s)..];
    if t == [] then End
    else
      var c := first(t);
      if c.text.None? || c.used > |t| then Bad else Token(c.text.value, t[c.used..])
  }

  function NextCut(s: seq<byte>): Next {
    NextCutBy(FirstToken, s)
  }

  /** `cut` cuts lines as `NextCut` does. */
  ghost predicate Cuts(cut: seq<byte> -> Next) {
    forall s {:trigger NextCut(s)} :: cut(s) == NextCut(s)
  }

  /** The tokens that `cut` finds one after the other, up to the number of slots. */
  function TokensBy(cut: seq<byte> -> Next, s: seq<byte>, slots: nat): (r: Option<seq<seq<byte>>>)
    ensures r.Some? ==> |r.value| <= slots
    decreases slots
  {
    if slots == 0 then Some([])
    else
      match cut(s)
      case End => Some([])
      case Bad => None
      case Token(text, rest) =>
        var more := TokensBy(cut, rest, slots - 1);
        if more.None? then None else Some([text] + more.value)
  }

  /** The tokens of a line; nothing if one of them ends in a lone backslash. */
  function Tokens(s: seq<byte>, slots: nat): (r: Option<seq<seq<byte>>>)
    ensures r.Some? ==> |r.value| <= slots
  {
    TokensBy(NextCut, s, slots)
  }

  lemma SpacesEnd(s: seq<byte>)
    ensures Spaces(s) < |s| ==> !IsSpace(s[Spaces(s)])
  {
  }

  // ---------- Round trip ----------

  lemma {:induction false} QuotedEndEscaped(z: seq<byte>, rest: seq<byte>)
    ensures QuotedEnd(EscapedText(z) + [QUOTE] + rest, QUOTE) == |EscapedText(z)|
  {
    var s := EscapedText(z) + [QUOTE] + rest;
    if z == [] {
      assert s[0] == QUOTE;
    } else {
      var e, more := EscapedByte(z[0]), EscapedText(z[1..]) + [QUOTE] + rest;
      assert s == e + more;
      QuotedEndEscaped(z[1..], rest);
      if |e| == 4 {
        assert s[2..] == [e[2], e[3]] + more;
        OrdinaryBytes(e[2], e[3], more);
      } else if |e| == 2 {
        assert s[2..] == more;
      } else {
        assert s[1..] == more;
      }
    }
  }

  lemma OrdinaryBytes(x: byte, y: byte, more: seq<byte>)
    requires x != QUOTE && x != BACKSLASH && y != QUOTE && y != BACKSLASH
    ensures QuotedEnd([x, y] + more, QUOTE) == 2 + QuotedEnd(more, QUOTE)
  {
    assert ([x, y] + more)[1..] == [y] + more;
    assert ([y] + more)[1..] == more;
  }

  function Quoted(z: seq<byte>): seq<byte> {
    [QUOTE] + EscapedText(z) + [QUOTE]
  }

  lemma FirstTokenQuoted(res: seq<byte> -> Option<seq<byte>>, z: seq<byte>, rest: seq<byte>)
    requires res(EscapedText(z)) == Some(z)
    ensures FirstTokenBy(res, Quoted(z) + rest) == Cut(Some(z), |Quoted(z)|)
  {
    var s := Quoted(z) + rest;
    var e := EscapedText(z);
    assert s[1..] == e + [QUOTE] + rest;
    QuotedEndEscaped(z, rest);
    assert s[1..][..|e|] == e;
  }

  /** A command word that the tokenizer leaves alone. */
  predicate PlainWord(w: seq<byte>) {
    && w != [] && w[0] != QUOTE && w[0] != APOSTROPHE
    && forall i :: 0 <= i < |w| ==> !IsSpace(w[i]) && w[i] != BACKSLASH
  }

  lemma {:induction false} WordEndPlain(w: seq<byte>, rest: seq<byte>)
    requires forall i :: 0 <= i < |w| ==> !IsSpace(w[i])
    requires rest == [] || IsSpace(rest[0])
    ensures WordEnd(w + rest) == |w|
  {
    if w != [] {
      assert (w + rest)[1..] == w[1..] + rest;
      WordEndPlain(w[1..], rest);
    } else {
      assert w + rest == rest;
    }
  }

  lemma {:induction false} ResolvePlain(w: seq<byte>)
    requires forall i :: 0 <= i < |w| ==> w[i] != BACKSLASH
    ensures Resolve(w) == Some(w)
  {
    if w != [] {
      ResolvePlain(w[1..]);
      assert [w[0]] + w[1..] == w;
    }
  }

  function Arguments(args: seq<seq<byte>>): seq<byte> {
    if args == [] then [] else [SPACE] + Quoted(args[0]) + Arguments(args[1..])
  }

  lemma CutQuoted(first: seq<byte> -> Cut, q: seq<byte>, rest: seq<byte>, z: seq<byte>)
    requires q != [] && q[0] == QUOTE && first(q + rest) == Cut(Some(z), |q|)
    ensures NextCutBy(first, [SPACE] + q + rest) == Token(z, rest)
  {
    var s := [SPACE] + q + rest;
    assert s[1..] == q + rest;
    assert Spaces(q + rest) == 0;
    assert s[Spaces(s)..] == q + rest;
    assert (q + rest)[|q|..] == rest;
  }

  lemma {:induction false} ApostropheEnd(z: seq<byte>, rest: seq<byte>)
    requires forall i :: 0 <= i < |z| ==> z[i] != APOSTROPHE
    ensures QuotedEnd(z + [APOSTROPHE] + rest, APOSTROPHE) == |z| && QuotedEnd(z, APOSTROPHE) == |z|
  {
    var s := z + [APOSTROPHE] + rest;
    if z != [] {
      assert s[1..] == z[1..] + [APOSTROPHE] + rest;
      ApostropheEnd(z[1..], rest);
    }
  }

  /** Text in apostrophes is a token as it stands: nothing in it is resolved. */
  lemma ApostropheVerbatim(z: seq<byte>, rest: seq<byte>)
    requires forall i :: 0 <= i < |z| ==> z[i] != APOSTROPHE
    ensures NextCut([APOSTROPHE] + z + [APOSTROPHE] + rest) == Token(z, rest)
  {
    var s := [APOSTROPHE] + z + [APOSTROPHE] + rest;
    ApostropheEnd(z, rest);
    assert s[1..] == z + [APOSTROPHE] + rest && Spaces(s) == 0 && s[0..] == s;
    assert s[1..][..|z|] == z && s[|z| + 2..] == rest;
  }

  lemma CutArgument(z: seq<byte>, rest: seq<byte>)
    ensures NextCut([SPACE] + Quoted(z) + rest) == Token(z, rest)
  {
    ResolveEscaped(z);
    FirstTokenQuoted(Resolve, z, rest);
    CutQuoted(FirstToken, Quoted(z), rest, z);
  }

  /** When each line is cut into an argument and the next line, the tokens are the arguments. */
  lemma {:induction false} TokensOfLines(
      cut: seq<byte> -> Next, lines: seq<seq<byte>>, args: seq<seq<byte>>, k: nat, slots: nat)
    requires |lines| == |args| + 1 && k <= |args| <= k + slots && cut(lines[|args|]) == End
    requires forall i :: 0 <= i < |args| ==> cut(lines[i]) == Token(args[i], lines[i + 1])
    ensures TokensBy(cut, lines[k], slots) == Some(args[k..])
    decreases slots
  {
    if k < |args| {
      TokensOfLines(cut, lines, args, k + 1, slots - 1);
      TokensCons(cut, lines[k], slots, args[k], lines[k + 1], args[k + 1..]);
      assert [args[k]] + args[k + 1..] == args[k..];
    } else {
      assert args[k..] == [];
    }
  }

  lemma CutArguments(cut: seq<byte> -> Next, args: seq<seq<byte>>, i: nat)
    requires Cuts(cut) && i < |args|
    ensures cut(Arguments(args[i..])) == Token(args[i], Arguments(args[i + 1..]))
  {
    assert args[i..][1..] == args[i + 1..];
    CutArgument(args[i], Arguments(args[i + 1..]));
  }

  lemma CutNothing(cut: seq<byte> -> Next)
    requires Cuts(cut)
    ensures cut([]) == End
  {
    assert NextCut([]) == End;
  }

  /** The byte that ends the command word is not part of what follows. */
  lemma CutWord(word: seq<byte>, rest: seq<byte>)
    requires PlainWord(word) && (rest == [] || IsSpace(rest[0]))
    ensures NextCut(word + rest) == Token(word, if rest == [] then [] else rest[1..])
  {
    var s := word + rest;
    assert s[0] == word[0];
    assert s[Spaces(s)..] == s;
    WordEndPlain(word, rest);
    ResolvePlain(word);
    assert s[..|word|] == word;
    assert rest == [] ==> s[|word|..] == [];
    assert rest != [] ==> s[|word| + 1..] == rest[1..];
  }

  /** A leading space makes no difference. */
  lemma SameCut(s: seq<byte>)
    requires s != [] && IsSpace(s[0])
    ensures NextCut(s[1..]) == NextCut(s)
  {
    assert s[1..][Spaces(s[1..])..] == s[Spaces(s)..];
  }

  lemma CutCommand(cut: seq<byte> -> Next, word: seq<byte>, args: seq<seq<byte>>, slots: nat) returns (rest: seq<byte>)
    requires Cuts(cut) && PlainWord(word)
    ensures cut(word + Arguments(args)) == Token(word, rest)
    ensures TokensBy(cut, rest, slots) == TokensBy(cut, Arguments(args), slots)
  {
    var all := Arguments(args);
    CutWord(word, all);
    if args == [] {
      rest := [];
    } else {
      rest := all[1..];
      SameCut(all);
    }
  }

  /** The lines that are left as the arguments are cut off one by one. */
  function ArgumentLines(args: seq<seq<byte>>): (lines: seq<seq<byte>>)
    ensures |lines| == |args| + 1
  {
    seq(|args| + 1, i requires 0 <= i <= |args| => Arguments(args[i..]))
  }

  lemma EachLine(cut: seq<byte> -> Next, args: seq<seq<byte>>, i: nat)
    requires Cuts(cut) && i < |args|
    ensures cut(ArgumentLines(args)[i]) == Token(args[i], ArgumentLines(args)[i + 1])
  {
    CutArguments(cut, args, i);
  }

  lemma EndLines(cut: seq<byte> -> Next, args: seq<seq<byte>>)
    requires Cuts(cut)
    ensures cut(ArgumentLines(args)[|args|]) == End && ArgumentLines(args)[0] == Arguments(args)
  {
    assert args[|args|..] == [] && args[0..] == args;
    CutNothing(cut);
  }

  lemma AllLines(cut: seq<byte> -> Next, args: seq<seq<byte>>) returns (lines: seq<seq<byte>>)
    requires Cuts(cut)
    ensures |lines| == |args| + 1 && lines[0] == Arguments(args) && cut(lines[|args|]) == End
    ensures forall i :: 0 <= i < |args| ==> cut(lines[i]) == Token(args[i], lines[i + 1])
  {
    lines := ArgumentLines(args);
    EndLines(cut, args);
    forall i | 0 <= i < |args|
      ensures cut(lines[i]) == Token(args[i], lines[i + 1])
    {
      EachLine(cut, args, i);
    }
  }

  lemma TokensOfArguments(cut: seq<byte> -> Next, args: seq<seq<byte>>, slots: nat)
    requires Cuts(cut) && |args| <= slots
    ensures TokensBy(cut, Arguments(args), slots) == Some(args)
  {
    var lines := AllLines(cut, args);
    TokensOfLines(cut, lines, args, 0, slots);
    assert args[0..] == args;
  }

  lemma TokensCons(cut: seq<byte> -> Next, s: seq<byte>, slots: nat, text: seq<byte>, rest: seq<byte>, ts: seq<seq<byte>>)
    requires slots > 0 && cut(s) == Token(text, rest) && TokensBy(cut, rest, slots - 1) == Some(ts)
    ensures TokensBy(cut, s, slots) == Some([text] + ts)
  {
  }

  lemma CommandBy(cut: seq<byte> -> Next, word: seq<byte>, args: seq<seq<byte>>, slots: nat)
    requires Cuts(cut) && PlainWord(word) && |args| < slots
    ensures TokensBy(cut, word + Arguments(args), slots) == Some([word] + args)
  {
    var rest := CutCommand(cut, word, args, slots - 1);
    TokensOfArguments(cut, args, slots - 1);
    TokensCons(cut, word + Arguments(args), slots, word, rest, args);
  }

  /** A command word and printed arguments, as many as there are slots, come back as exactly these strings. */
  lemma CommandRoundTrip(word: seq<byte>, args: seq<seq<byte>>, slots: nat)
    requires PlainWord(word) && |args| < slots
    ensures Tokens(word + Arguments(args), slots) == Some([word] + args)
  {
    CommandBy(NextCut, word, args, slots);
  }

  // ---------- Printing a command line and reading it back ----------

  predicate NoNul(s: seq<byte>) {
    forall i :: 0 <= i < |s| ==> s[i] != 0
  }

  lemma {:induction false} EscapedNoNul(z: seq<byte>)
    ensures NoNul(EscapedText(z))
  {
    if z != [] {
      EscapedNoNul(z[1..]);
    }
  }

  lemma {:induction false} ArgumentsNoNul(args: seq<seq<byte>>)
    ensures NoNul(Arguments(args))
  {
    if args != [] {
      EscapedNoNul(args[0]);
      ArgumentsNoNul(args[1..]);
    }
  }

  method PrintArguments(args: seq<seq<byte>>) returns (out: seq<byte>)
    ensures out == Arguments(args)
    decreases |args|
  {
    out := [];
    if args != [] {
      var first := OutputCString(args[0]);
      var rest := PrintArguments(args[1..]);
      out := [SPACE] + first + rest;
    }
  }
}
