/**
 * What std::format_to does with the format strings the formatters of
 * toys/formatter/fmt.h and template/formatter.h build: literal characters
 * are copied, "{{" and "}}" stand for one brace, and each "{}" is replaced
 * by the text of the next argument. Arguments arrive already formatted
 * (the text of a number or a string is not modelled). Also the tuple
 * format string both files build in make_tuple_format, and its rendering.
 */
module Format {
  import opened Wrappers

  /** Puts s in front of a rendered text, keeping a failure. */
  function Prefix(s: string, o: Option<string>): (r: Option<string>)
    ensures r.Some? <==> o.Some?
    ensures o.Some? ==> r.value == s + o.value
  {
    match o
    case None => None
    case Some(t) => Some(s + t)
  }

  /** The output of std::format_to(out, fmt, args...); None where the
    * format string is ill-formed or names more arguments than there are.
    * Arguments left over are ignored, as std::format does. */
  function Render(fmt: string, args: seq<string>): Option<string>
    decreases |fmt|
  {
    if fmt == [] then Some([])
    else if |fmt| >= 2 && fmt[0] == '{' && fmt[1] == '}' then
      if args == [] then None else Prefix(args[0], Render(fmt[2..], args[1..]))
    else if |fmt| >= 2 && fmt[0] == '{' && fmt[1] == '{' then Prefix("{", Render(fmt[2..], args))
    else if |fmt| >= 2 && fmt[0] == '}' && fmt[1] == '}' then Prefix("}", Render(fmt[2..], args))
    else if fmt[0] == '{' || fmt[0] == '}' then None
    else Prefix([fmt[0]], Render(fmt[1..], args))
  }

  /** A piece of format text that is copied as it is. */
  predicate Plain(s: string) {
    forall i | 0 <= i < |s| :: s[i] != '{' && s[i] != '}'
  }

  /** Plain text is copied and uses no argument. */
  lemma {:induction false} RenderPlain(s: string, rest: string, args: seq<string>)
    requires Plain(s)
    ensures Render(s + rest, args) == Prefix(s, Render(rest, args))
    decreases |s|
  {
    if s == [] {
      assert s + rest == rest;
      PrefixEmpty(Render(rest, args));
    } else {
      assert (s + rest)[0] == s[0];
      assert (s + rest)[1..] == s[1..] + rest;
      RenderPlain(s[1..], rest, args);
      PrefixPrefix([s[0]], s[1..], Render(rest, args));
      assert [s[0]] + s[1..] == s;
    }
  }

  /** A "{}" is replaced by the next argument. */
  lemma RenderHole(rest: string, x: string, args: seq<string>)
    ensures Render("{}" + rest, [x] + args) == Prefix(x, Render(rest, args))
  {
    assert ("{}" + rest)[2..] == rest;
    assert ([x] + args)[1..] == args;
  }

  /** A "{}" with no argument left is ill-formed. */
  lemma RenderMissing(rest: string)
    ensures Render("{}" + rest, []) == None
  {
  }

  /** "{{" and "}}" each print one brace. */
  lemma RenderEscapes(rest: string, args: seq<string>)
    ensures Render("{{" + rest, args) == Prefix("{", Render(rest, args))
    ensures Render("}}" + rest, args) == Prefix("}", Render(rest, args))
  {
    assert ("{{" + rest)[2..] == rest;
    assert ("}}" + rest)[2..] == rest;
  }

  lemma Assoc(a: string, b: string, c: string)
    ensures a + (b + c) == a + b + c
  {
  }

  lemma PrefixEmpty(o: Option<string>)
    ensures Prefix([], o) == o
  {
    if o.Some? {
      assert [] + o.value == o.value;
    }
  }

  lemma PrefixPrefix(a: string, b: string, o: Option<string>)
    ensures Prefix(a, Prefix(b, o)) == Prefix(a + b, o)
  {
    if o.Some? {
      assert a + (b + o.value) == (a + b) + o.value;
    }
  }

  /** Rendering a format made of plain text, one "{}" and plain text. */
  lemma RenderOne(before: string, x: string, after: string)
    requires Plain(before) && Plain(after)
    ensures Render(before + "{}" + after, [x]) == Some(before + x + after)
  {
    assert before + "{}" + after == before + ("{}" + after);
    RenderPlain(before, "{}" + after, [x]);
    assert [x] == [x] + [];
    RenderHole(after, x, []);
    assert after == after + [];
    RenderPlain(after, [], []);
    PrefixPrefix(before, x, Some(after));
  }

  /** Rendering a format of plain text with two "{}". */
  lemma RenderTwo(before: string, x: string, middle: string, y: string, after: string)
    requires Plain(before) && Plain(middle) && Plain(after)
    ensures Render(before + "{}" + middle + "{}" + after, [x, y]) == Some(before + x + middle + y + after)
  {
    var second := middle + "{}" + after;
    assert before + "{}" + middle + "{}" + after == before + ("{}" + second);
    RenderPlain(before, "{}" + second, [x, y]);
    assert [x, y] == [x] + [y];
    RenderHole(second, x, [y]);
    RenderOne(middle, y, after);
    var text := middle + y + after;
    assert Render("{}" + second, [x, y]) == Some(x + text);
    Assoc(x, middle + y, after);
    Assoc(x, middle, y);
    Assoc(before, (x + middle) + y, after);
    Assoc(before, x + middle, y);
    Assoc(before, x, middle);
  }

  // the tuple format of make_tuple_format

  /** The separated placeholders ", {}" repeated k times. */
  function Repeat(k: nat): (r: string)
    ensures |r| == 4 * k
  {
    seq(4 * k, j requires 0 <= j < 4 * k => ", {}"[j % 4])
  }

  lemma RepeatStep(k: nat)
    ensures Repeat(k + 1) == ", {}" + Repeat(k)
  {
    var a, b := Repeat(k + 1), ", {}" + Repeat(k);
    forall j | 0 <= j < |a|
      ensures a[j] == b[j]
    {
      if j >= 4 {
        assert (j - 4) % 4 == j % 4;
      }
    }
  }

  /** make_tuple_format<n, l, r> as text: l and r around one "{}" per
    * element, separated by ", ". */
  function TupleFormat(n: nat, l: char, r: char): string {
    if n == 0 then [l, r] else [l] + "{}" + Repeat(n - 1) + [r]
  }

  /** Two cells for no element, four per element otherwise, laid out as
    * l, "{}", the repeated ", {}" and r. */
  lemma TupleFormatCells(n: nat, l: char, r: char)
    ensures n == 0 ==> TupleFormat(n, l, r) == [l, r]
    ensures n > 0 ==> |TupleFormat(n, l, r)| == 4 * n
    ensures n > 0 ==> TupleFormat(n, l, r)[0] == l && TupleFormat(n, l, r)[1] == '{'
    ensures n > 0 ==> TupleFormat(n, l, r)[2] == '}' && TupleFormat(n, l, r)[4 * n - 1] == r
    ensures n > 0 ==> forall k | 3 <= k < 4 * n - 1 :: TupleFormat(n, l, r)[k] == ", {}"[(k - 3) % 4]
  {
  }

  /** The elements' texts separated by ", ". */
  function Join(xs: seq<string>): string {
    if xs == [] then "" else xs[0] + Tail(xs[1..])
  }

  /** ", " before each of the texts. */
  function Tail(xs: seq<string>): string {
    if xs == [] then "" else ", " + xs[0] + Tail(xs[1..])
  }

  /** Rendering the repeated ", {}" uses one argument each. */
  lemma {:induction false} RenderRepeat(xs: seq<string>, tail: string)
    ensures Render(Repeat(|xs|) + tail, xs) == Prefix(Tail(xs), Render(tail, []))
    decreases |xs|
  {
    if xs == [] {
      assert Repeat(0) + tail == tail;
      PrefixEmpty(Render(tail, []));
    } else {
      var k := |xs| - 1;
      RepeatStep(k);
      var rest := Repeat(k) + tail;
      Assoc(", {}", Repeat(k), tail);
      assert ", " + "{}" == ", {}";
      Assoc(", ", "{}", rest);
      assert Repeat(|xs|) + tail == ", " + ("{}" + rest);
      assert Plain(", ");
      RenderPlain(", ", "{}" + rest, xs);
      assert xs == [xs[0]] + xs[1..];
      RenderHole(rest, xs[0], xs[1..]);
      RenderRepeat(xs[1..], tail);
      PrefixPrefix(xs[0], Tail(xs[1..]), Render(tail, []));
      PrefixPrefix(", ", xs[0] + Tail(xs[1..]), Render(tail, []));
      Assoc(", ", xs[0], Tail(xs[1..]));
    }
  }

  /** The tuple format renders as l, the elements separated by ", ", and r. */
  lemma RenderTuple(xs: seq<string>, l: char, r: char)
    requires l != '{' && l != '}' && r != '{' && r != '}'
    ensures Render(TupleFormat(|xs|, l, r), xs) == Some([l] + Join(xs) + [r])
  {
    if xs == [] {
      assert Plain([l, r]);
      RenderPlain([l, r], [], []);
      assert [l, r] + [] == [l, r];
      assert [l] + Join(xs) + [r] == [l, r];
    } else {
      RenderElements(xs, l, r);
    }
  }

  lemma RenderElements(xs: seq<string>, l: char, r: char)
    requires l != '{' && l != '}' && r != '{' && r != '}'
    requires xs != []
    ensures Render(TupleFormat(|xs|, l, r), xs) == Some([l] + Join(xs) + [r])
  {
    var rest := Repeat(|xs| - 1) + [r];
    ShapeOfFormat(|xs|, l, r);
    RenderFront(l, rest, xs);
    RenderLast(xs[1..], r);
    JoinShape(xs, l, r);
  }

  /** A plain character, then a placeholder. */
  lemma RenderFront(c: char, rest: string, args: seq<string>)
    requires c != '{' && c != '}' && args != []
    ensures Render([c] + ("{}" + rest), args) == Prefix([c] + args[0], Render(rest, args[1..]))
  {
    assert Plain([c]);
    RenderPlain([c], "{}" + rest, args);
    assert args == [args[0]] + args[1..];
    RenderHole(rest, args[0], args[1..]);
    PrefixPrefix([c], args[0], Render(rest, args[1..]));
  }

  lemma JoinShape(xs: seq<string>, l: char, r: char)
    requires xs != []
    ensures ([l] + xs[0]) + (Tail(xs[1..]) + [r]) == [l] + Join(xs) + [r]
  {
    var tail := Tail(xs[1..]);
    Assoc([l] + xs[0], tail, [r]);
    Assoc([l], xs[0], tail);
  }

  lemma ShapeOfFormat(n: nat, l: char, r: char)
    requires n > 0
    ensures TupleFormat(n, l, r) == [l] + ("{}" + (Repeat(n - 1) + [r]))
  {
    var rest := Repeat(n - 1) + [r];
    Assoc([l], "{}", Repeat(n - 1));
    Assoc([l] + "{}", Repeat(n - 1), [r]);
    Assoc([l], "{}", rest);
  }

  lemma RenderLast(xs: seq<string>, r: char)
    requires r != '{' && r != '}'
    ensures Render(Repeat(|xs|) + [r], xs) == Some(Tail(xs) + [r])
  {
    RenderRepeat(xs, [r]);
    assert Plain([r]);
    RenderPlain([r], [], []);
    assert [r] + [] == [r];
  }

  /** One more text at the end of a tail. */
  lemma {:induction false} TailSnoc(xs: seq<string>, x: string)
    ensures Tail(xs + [x]) == Tail(xs) + ", " + x
    decreases |xs|
  {
    if xs == [] {
      assert ", " + x + "" == ", " + x;
    } else {
      assert (xs + [x])[1..] == xs[1..] + [x];
      TailSnoc(xs[1..], x);
      var t := Tail(xs[1..]);
      Assoc(", " + xs[0], t + ", ", x);
      Assoc(", " + xs[0], t, ", ");
    }
  }

  /** Joining one more text appends ", " and the text. */
  lemma JoinSnoc(xs: seq<string>, x: string)
    requires xs != []
    ensures Join(xs + [x]) == Join(xs) + ", " + x
  {
    assert (xs + [x])[1..] == xs[1..] + [x];
    TailSnoc(xs[1..], x);
    var t := Tail(xs[1..]);
    Assoc(xs[0], t + ", ", x);
    Assoc(xs[0], t, ", ");
  }

  lemma JoinOne(x: string)
    ensures Join([x]) == x
  {
    assert [x][1..] == [];
    assert x + "" == x;
  }
}
