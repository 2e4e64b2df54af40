/** The two printf engines: vsprintf writes into a buffer, stream_vprintf emits characters. */
module Format {
  import opened Basics
  import opened Word32
  import opened Numerals

  /** One variadic argument, as the conversion reads it. */
  datatype Arg = Int(i: int32) | Hex(u: word) | Text(s: string) | Chr(c: char)

  /** The format ends every conversion, has no %f, and the arguments are of the kinds it asks for. */
  predicate Fits(fmt: string, args: seq<Arg>) {
    if fmt == [] then true
    else if fmt[0] != '%' then fmt[0] != NUL && Fits(fmt[1..], args)
    else
      && |fmt| > 1 && fmt[1] != NUL && fmt[1] != 'f'
      && if TakesArg(fmt[1]) then args != [] && ArgFits(fmt[1], args[0]) && Fits(fmt[2..], args[1..])
         else Fits(fmt[2..], args)
  }

  predicate TakesArg(c: char) { c == 'd' || c == 'x' || c == 'p' || c == 's' || c == 'c' }

  predicate ArgFits(c: char, a: Arg)
    requires TakesArg(c)
  {
    if c == 'd' then a.Int? else if c == 's' then a.Text? && NUL !in a.s else if c == 'c' then a.Chr? else a.Hex?
  }

  /** The text of one argument under its conversion. */
  function Piece(c: char, a: Arg): string
    requires TakesArg(c) && ArgFits(c, a)
  {
    match a
    case Int(i) => ItoaText(i)
    case Hex(u) => HexText(u)
    case Text(s) => s
    case Chr(k) => [k]
  }

  /** What a format means. */
  function Render(fmt: string, args: seq<Arg>): string
    requires Fits(fmt, args)
  {
    if fmt == [] then []
    else if fmt[0] != '%' then [fmt[0]] + Render(fmt[1..], args)
    else if TakesArg(fmt[1]) then Piece(fmt[1], args[0]) + Render(fmt[2..], args[1..])
    else [fmt[1]] + Render(fmt[2..], args)
  }

  // ----- what the conversions are -----

  /** Every conversion on its own, and every character that is none. */
  lemma Conversions(i: int32, u: word, t: string, k: char)
    requires NUL !in t
    ensures Fits("%d", [Int(i)]) && Render("%d", [Int(i)]) == ItoaText(i)
    ensures Fits("%x", [Hex(u)]) && Render("%x", [Hex(u)]) == HexText(u)
    ensures Fits("%p", [Hex(u)]) && Render("%p", [Hex(u)]) == HexText(u)
    ensures Fits("%s", [Text(t)]) && Render("%s", [Text(t)]) == t
    ensures Fits("%c", [Chr(k)]) && Render("%c", [Chr(k)]) == [k]
  {
    Conversion('d', Int(i));
    Conversion('x', Hex(u));
    Conversion('p', Hex(u));
    Conversion('s', Text(t));
    Conversion('c', Chr(k));
    assert ['%', 'd'] == "%d" && ['%', 'x'] == "%x" && ['%', 'p'] == "%p" && ['%', 's'] == "%s" && ['%', 'c'] == "%c";
  }

  lemma Conversion(c: char, a: Arg)
    requires TakesArg(c) && ArgFits(c, a)
    ensures Fits(['%', c], [a]) && Render(['%', c], [a]) == Piece(c, a)
  {
    hide Piece;
    var f, r := ['%', c], [a];
    assert f[2..] == [] && r[1..] == [];
    assert Fits(f[2..], r[1..]) && Render(f[2..], r[1..]) == [];
  }

  /** Any other character behind a percent sign stands for itself, as does any character without. */
  lemma PlainCharacters(c: char)
    requires c != NUL
    ensures c !in "dxpscf" ==> Fits(['%', c], []) && Render(['%', c], []) == [c]
    ensures c != '%' ==> Fits([c], []) && Render([c], []) == [c]
    ensures Fits("", []) && Render("", []) == ""
  {
    var f := ['%', c];
    assert f[2..] == [] && Fits(f[2..], []) && Render(f[2..], []) == [];
    assert [c][1..] == [] && Fits([c][1..], []) && Render([c][1..], []) == [];
  }

  /** fmt reads exactly the arguments args, and leaves none over. */
  predicate UsesUp(fmt: string, args: seq<Arg>)
    requires Fits(fmt, args)
  {
    if fmt == [] then args == []
    else if fmt[0] != '%' then UsesUp(fmt[1..], args)
    else if TakesArg(fmt[1]) then UsesUp(fmt[2..], args[1..])
    else UsesUp(fmt[2..], args)
  }

  /** Formats one behind the other give their texts one behind the other. */
  lemma {:induction false} RenderConcat(f: string, a: seq<Arg>, g: string, b: seq<Arg>)
    requires Fits(f, a) && UsesUp(f, a) && Fits(g, b)
    ensures Fits(f + g, a + b) && Render(f + g, a + b) == Render(f, a) + Render(g, b)
    decreases f, 1
  {
    if f == [] {
      assert f + g == g && a + b == b;
    } else if f[0] != '%' {
      assert (f + g)[0] == f[0] && (f + g)[1..] == f[1..] + g;
      RenderConcat(f[1..], a, g, b);
      Grouped([f[0]], Render(f[1..], a), Render(g, b));
    } else {
      EscapeConcat(f, a, g, b);
    }
  }

  lemma {:induction false} EscapeConcat(f: string, a: seq<Arg>, g: string, b: seq<Arg>)
    requires f != [] && f[0] == '%' && Fits(f, a) && UsesUp(f, a) && Fits(g, b)
    ensures Fits(f + g, a + b) && Render(f + g, a + b) == Render(f, a) + Render(g, b)
    decreases f, 0
  {
    hide Piece, ArgFits, TakesArg, Fits, Render, UsesUp;
    EscapeUnfold(f, a);
    EscapeUses(f, a);
    assert (f + g)[0] == f[0] && (f + g)[1] == f[1] && (f + g)[2..] == f[2..] + g;
    if TakesArg(f[1]) {
      assert (a + b)[0] == a[0] && (a + b)[1..] == a[1..] + b;
      RenderConcat(f[2..], a[1..], g, b);
      EscapeBuild(f + g, a + b);
      Grouped(Piece(f[1], a[0]), Render(f[2..], a[1..]), Render(g, b));
    } else {
      RenderConcat(f[2..], a, g, b);
      EscapeBuild(f + g, a + b);
      Grouped([f[1]], Render(f[2..], a), Render(g, b));
    }
  }

  lemma EscapeUses(f: string, a: seq<Arg>)
    requires f != [] && f[0] == '%' && Fits(f, a) && UsesUp(f, a)
    ensures |f| > 1 && f[1] != NUL
    ensures if TakesArg(f[1]) then a != [] && Fits(f[2..], a[1..]) && UsesUp(f[2..], a[1..]) else Fits(f[2..], a) && UsesUp(f[2..], a)
  {}

  lemma EscapeBuild(h: string, c: seq<Arg>)
    requires |h| > 1 && h[0] == '%' && h[1] != NUL && h[1] != 'f'
    requires if TakesArg(h[1]) then c != [] && ArgFits(h[1], c[0]) && Fits(h[2..], c[1..]) else Fits(h[2..], c)
    ensures Fits(h, c)
    ensures Render(h, c) == if TakesArg(h[1]) then Piece(h[1], c[0]) + Render(h[2..], c[1..]) else [h[1]] + Render(h[2..], c)
  {}

  lemma Grouped(a: string, b: string, c: string)
    ensures a + (b + c) == a + b + c
  {}

  /** The pieces still to come when the loop is at position i of fmt and at argument a. */
  ghost predicate Remaining(fmt: string, args: seq<Arg>, i: nat, a: nat, done: string) {
    && i <= |fmt| && a <= |args| && Fits(fmt, args) && Fits(fmt[i..], args[a..])
    && Render(fmt, args) == done + Render(fmt[i..], args[a..])
  }

  lemma Start(fmt: string, args: seq<Arg>)
    requires Fits(fmt, args)
    ensures Remaining(fmt, args, 0, 0, [])
  {
    assert fmt[0..] == fmt && args[0..] == args;
  }

  lemma PlainStep(fmt: string, args: seq<Arg>, i: nat, a: nat, done: string)
    requires Remaining(fmt, args, i, a, done) && i < |fmt| && fmt[i] != '%'
    ensures Remaining(fmt, args, i + 1, a, done + [fmt[i]])
    ensures |done| < |Render(fmt, args)| && fmt[i] != NUL
  {
    assert fmt[i..][0] == fmt[i] && fmt[i..][1..] == fmt[i + 1..];
  }

  lemma EscapeStep(fmt: string, args: seq<Arg>, i: nat, a: nat, done: string)
    requires Remaining(fmt, args, i, a, done) && i < |fmt| && fmt[i] == '%'
    ensures i + 1 < |fmt| && fmt[i + 1] != 'f'
    ensures TakesArg(fmt[i + 1]) ==> a < |args| && ArgFits(fmt[i + 1], args[a])
    ensures var piece := if TakesArg(fmt[i + 1]) then Piece(fmt[i + 1], args[a]) else [fmt[i + 1]];
            && Remaining(fmt, args, i + 2, if TakesArg(fmt[i + 1]) then a + 1 else a, done + piece)
            && |done + piece| <= |Render(fmt, args)|
  {
    hide Fits, Render, Piece, TakesArg;
    var f, r := fmt[i..], args[a..];
    EscapeUnfold(f, r);
    assert f[0] == fmt[i] && f[1] == fmt[i + 1] && f[2..] == fmt[i + 2..];
    if TakesArg(f[1]) {
      assert r[0] == args[a] && r[1..] == args[a + 1..];
      assert done + (Piece(f[1], r[0]) + Render(f[2..], r[1..])) == done + Piece(f[1], r[0]) + Render(f[2..], r[1..]);
    } else {
      assert done + ([f[1]] + Render(f[2..], r)) == done + [f[1]] + Render(f[2..], r);
    }
  }

  lemma EscapeUnfold(f: string, r: seq<Arg>)
    requires f != [] && f[0] == '%' && Fits(f, r)
    ensures |f| > 1 && f[1] != 'f'
    ensures if TakesArg(f[1]) then
              && r != [] && ArgFits(f[1], r[0]) && Fits(f[2..], r[1..])
              && Render(f, r) == Piece(f[1], r[0]) + Render(f[2..], r[1..])
            else Fits(f[2..], r) && Render(f, r) == [f[1]] + Render(f[2..], r)
  {}

  /** strcpy to position p, with the terminating NUL. */
  method StrCpy(out: array<char>, p: nat, s: string)
    requires p + |s| < out.Length
    modifies out
    ensures out[p..p + |s|] == s && out[..p] == old(out[..p])
  {
    var k := 0;
    while k < |s|
      invariant 0 <= k <= |s|
      invariant out[p..p + k] == s[..k] && out[..p] == old(out[..p])
    {
      out[p + k] := s[k];
      assert out[p..p + k + 1] == out[p..p + k] + [s[k]];
      k := k + 1;
    }
    out[p + k] := NUL;
    assert out[p..p + |s|] == s[..|s|];
  }

  /** vsprintf into a buffer that is large enough; the result is the number of characters. */
  method Vsprintf(out: array<char>, fmt: string, args: seq<Arg>) returns (n: nat)
    requires Fits(fmt, args) && |Render(fmt, args)| < out.Length
    modifies out
    ensures n == |Render(fmt, args)| && out[..n] == Render(fmt, args) && out[n] == NUL
  {
    hide Render, Fits, Piece;
    var p: nat, i: nat, a: nat := 0, 0, 0;
    Start(fmt, args);
    while i < |fmt|
      invariant p <= |Render(fmt, args)| && Remaining(fmt, args, i, a, out[..p])
      decreases |fmt| - i
    {
      ghost var done := out[..p];
      if fmt[i] == '%' {
        EscapeStep(fmt, args, i, a, done);
        i := i + 1;
        var c := fmt[i];
        if TakesArg(c) {
          p := PutArg(out, p, c, args[a]);
          a := a + 1;
        } else {
          out[p] := c;
          p := p + 1;
          assert out[..p] == done + [c];
        }
      } else {
        PlainStep(fmt, args, i, a, done);
        out[p] := fmt[i];
        p := p + 1;
        assert out[..p] == done + [fmt[i]];
      }
      i := i + 1;
    }
    Finished(fmt, args, a, out[..p]);
    out[p] := NUL;
    n := p;
  }

  lemma Finished(fmt: string, args: seq<Arg>, a: nat, done: string)
    requires Remaining(fmt, args, |fmt|, a, done)
    ensures done == Render(fmt, args)
  {
    assert fmt[|fmt|..] == [];
  }

  /** The conversions of vsprintf that read an argument. */
  method PutArg(out: array<char>, p: nat, c: char, a: Arg) returns (q: nat)
    requires TakesArg(c) && ArgFits(c, a) && p + |Piece(c, a)| < out.Length
    modifies out
    ensures q == p + |Piece(c, a)| && out[..q] == old(out[..p]) + Piece(c, a)
  {
    hide ItoaText, HexText;
    match a {
      case Int(i) =>
        q := Itoa(i, out, p);
        assert out[..q] == out[..p] + out[p..q];
      case Hex(u) =>
        q := Htoa(u, out, p);
        assert out[..q] == out[..p] + out[p..q];
      case Text(s) =>
        StrCpy(out, p, s);
        q := p + |s|;
        assert out[..q] == out[..p] + out[p..q];
      case Chr(k) =>
        out[p] := k;
        q := p + 1;
    }
  }

  class Stream {
    const hasPutchar: bool
    var emitted: string
    const buf: array<char>

    ghost predicate Valid()
      reads this
    {
      buf.Length == 32
    }

    constructor (p: bool)
      ensures Valid() && hasPutchar == p && emitted == [] && fresh(buf)
    {
      hasPutchar, emitted := p, [];
      buf := new char[32](_ => NUL);
    }

    /** What a stream shows of a text. */
    function Shown(s: string): string { if hasPutchar then s else [] }

    method Putchar(c: char)
      modifies this`emitted
      ensures emitted == old(emitted) + Shown([c])
    {
      if hasPutchar {
        emitted := emitted + [c];
      }
    }

    /** Emits the text in the scratch buffer up to its NUL: stream_putint and stream_puthex after
        the conversion. */
    method PutBuf(ghost text: string) returns (size: nat)
      requires Valid() && |text| < 32 && buf[|text|] == NUL
      requires forall k :: 0 <= k < |text| ==> buf[k] == text[k] && text[k] != NUL
      modifies this`emitted
      ensures size == |text| && emitted == old(emitted) + Shown(text)
    {
      size := 0;
      while buf[size] != NUL
        invariant 0 <= size <= |text|
        decreases |text| - size
      {
        size := size + 1;
      }
      var k := 0;
      while k < size
        invariant 0 <= k <= size && emitted == old(emitted) + Shown(text[..k])
      {
        assert text[..k + 1] == text[..k] + [buf[k]];
        Putchar(buf[k]);
        k := k + 1;
      }
      assert text[..size] == text;
    }

    method PutText(s: string) returns (count: nat)
      modifies this`emitted
      ensures count == |s| && emitted == old(emitted) + Shown(s)
    {
      count := 0;
      while count < |s|
        invariant 0 <= count <= |s| && emitted == old(emitted) + Shown(s[..count])
      {
        assert s[..count + 1] == s[..count] + [s[count]];
        Putchar(s[count]);
        count := count + 1;
      }
      assert s[..|s|] == s;
    }

    /** The conversions of stream_vprintf that read an argument. */
    method PutArg(c: char, a: Arg) returns (count: nat)
      requires Valid() && TakesArg(c) && ArgFits(c, a)
      modifies this`emitted, buf
      ensures count == |Piece(c, a)| && emitted == old(emitted) + Shown(Piece(c, a))
    {
      hide ItoaText, HexText;
      match a {
        case Int(i) =>
          ItoaTextShort(i);
          var end := Itoa(i, buf, 0);
          assert forall k :: 0 <= k < end ==> buf[k] == buf[0..end][k];
          count := PutBuf(ItoaText(i));
        case Hex(u) =>
          HexTextShort(u);
          var end := Htoa(u, buf, 0);
          assert forall k :: 0 <= k < end ==> buf[k] == buf[0..end][k];
          count := PutBuf(HexText(u));
        case Text(s) =>
          count := PutText(s);
        case Chr(k) =>
          Putchar(k);
          count := 1;
      }
    }

    /** stream_vprintf. */
    method Vprintf(fmt: string, args: seq<Arg>) returns (count: nat)
      requires Valid() && Fits(fmt, args)
      modifies this`emitted, buf
      ensures count == |Render(fmt, args)| && emitted == old(emitted) + Shown(Render(fmt, args))
    {
      hide Render, Fits, Piece;
      var i, a := 0, 0;
      count := 0;
      ghost var done := [];
      Start(fmt, args);
      while i < |fmt|
        invariant Remaining(fmt, args, i, a, done)
        invariant count == |done| && emitted == old(emitted) + Shown(done)
        decreases |fmt| - i
      {
        if fmt[i] == '%' {
          EscapeStep(fmt, args, i, a, done);
          i := i + 1;
          if TakesArg(fmt[i]) {
            done := done + Piece(fmt[i], args[a]);
            var k := PutArg(fmt[i], args[a]);
            count := count + k;
            a := a + 1;
          } else {
            done := done + [fmt[i]];
            Putchar(fmt[i]);
            count := count + 1;
          }
        } else {
          PlainStep(fmt, args, i, a, done);
          done := done + [fmt[i]];
          Putchar(fmt[i]);
          count := count + 1;
        }
        i := i + 1;
      }
      Finished(fmt, args, a, done);
    }
  }

  /** The two engines agree: the stream emits exactly what vsprintf writes, and both return the
      same count. */
  method PrintBoth(s: Stream, out: array<char>, fmt: string, args: seq<Arg>) returns (n: nat, count: nat)
    requires s.Valid() && s.hasPutchar && s.buf != out && Fits(fmt, args) && |Render(fmt, args)| < out.Length
    modifies s, s.buf, out
    ensures n == count && n < out.Length && s.emitted == old(s.emitted) + out[..n] && out[n] == NUL
  {
    n := Vsprintf(out, fmt, args);
    count := s.Vprintf(fmt, args);
  }
}
