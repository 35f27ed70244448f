/**
 * The std::formatter specialisations of toys/formatter/fmt.h. Values arrive
 * as the texts their own formatters print; a tuple prints through the
 * format string make_tuple_format builds, viewed whole (no terminator).
 */
module Fmt {
  import opened Wrappers
  import opened Format

  /** make_tuple_format<n, l, r>: two cells for no element; otherwise four
    * cells per element, zero-filled, then l, "{}", one ", {}" per further
    * element at cells 4i-1 .. 4i+2, and r in the last cell. */
  method MakeTupleFormat(n: nat, l: char, r: char) returns (result: array<char>)
    ensures fresh(result) && result[..] == TupleFormat(n, l, r)
  {
    if n == 0 {
      result := new char[2](i => if i == 0 then l else r);
      assert result[..] == [l, r];
      return;
    }
    result := new char[4 * n](_ => '\0');
    result[0] := l;
    result[1] := '{';
    result[2] := '}';
    for i := 1 to n
      invariant result[0] == l && result[1] == '{' && result[2] == '}'
      invariant forall k | 3 <= k < 4 * i - 1 :: result[k] == ", {}"[(k - 3) % 4]
      invariant forall k | 4 * i - 1 <= k < 4 * n :: result[k] == '\0'
    {
      // the four cells of this element are still zero: writes never overlap
      assert result[4 * i - 1] == '\0' && result[4 * i + 2] == '\0';
      result[4 * i - 1] := ',';
      result[4 * i] := ' ';
      result[4 * i + 1] := '{';
      result[4 * i + 2] := '}';
    }
    result[4 * n - 1] := r;
    CellsAreFormat(result[..], n, l, r);
  }

  /** Cells laid out as make_tuple_format writes them spell the tuple
    * format. */
  lemma CellsAreFormat(cells: seq<char>, n: nat, l: char, r: char)
    requires n > 0 && |cells| == 4 * n
    requires cells[0] == l && cells[1] == '{' && cells[2] == '}' && cells[4 * n - 1] == r
    requires forall k | 3 <= k < 4 * n - 1 :: cells[k] == ", {}"[(k - 3) % 4]
    ensures cells == TupleFormat(n, l, r)
  {
    TupleFormatCells(n, l, r);
    assert forall k | 0 <= k < 4 * n :: cells[k] == TupleFormat(n, l, r)[k];
  }

  /** get_format_str<n, l, r>: a view of the whole array, so its length is
    * the array's and it holds no terminator. */
  method GetFormatStr(n: nat, l: char, r: char) returns (s: string)
    ensures s == TupleFormat(n, l, r)
    ensures |s| == if n == 0 then 2 else 4 * n
  {
    var fmt := MakeTupleFormat(n, l, r);
    s := fmt[..];
    TupleFormatCells(n, l, r);
  }

  /** A tuple prints as its elements in parentheses, separated by ", ". */
  function FormatTuple(elems: seq<string>): (s: string)
    ensures s == "(" + Join(elems) + ")"
  {
    RenderTuple(elems, '(', ')');
    Render(TupleFormat(|elems|, '(', ')'), elems).value
  }

  /** A pair prints as "(a, b)". */
  function FormatPair(a: string, b: string): (s: string)
    ensures s == "(" + a + ", " + b + ")"
  {
    assert "(" + "{}" + ", " + "{}" + ")" == "({}, {})";
    assert Plain("(") && Plain(", ") && Plain(")");
    RenderTwo("(", a, ", ", b, ")");
    Render("({}, {})", [a, b]).value
  }

  /** An optional prints as "?<v>" when it holds v and as "?None" otherwise. */
  function FormatOptional(v: Option<string>): (s: string)
    ensures v.Some? ==> s == "?<" + v.value + ">"
    ensures v.None? ==> s == "?None"
  {
    if v.Some? then
      assert "?<" + "{}" + ">" == "?<{}>";
      assert Plain("?<") && Plain(">");
      RenderOne("?<", v.value, ">");
      Render("?<{}>", [v.value]).value
    else
      assert Plain("?None");
      RenderPlain("?None", [], []);
      assert "?None" + [] == "?None";
      Render("?None", []).value
  }

  lemma RenderText(s: string)
    requires Plain(s)
    ensures Render(s, []) == Some(s)
  {
    RenderPlain(s, [], []);
    assert s + [] == s;
  }

  lemma RenderSeparated(before: string, x: string)
    requires Plain(before)
    ensures Render(before + "{}", [x]) == Some(before + x)
  {
    RenderOne(before, x, "");
    assert before + "{}" + "" == before + "{}";
    assert before + x + "" == before + x;
  }

  /** std::format_to(iter, "{}", x). */
  function FirstPiece(x: string): (s: string)
    ensures s == x
  {
    RenderSeparated("", x);
    assert "" + "{}" == "{}" && "" + x == x;
    Render("{}", [x]).value
  }

  /** std::format_to(iter, ", {}", x). */
  function NextPiece(x: string): (s: string)
    ensures s == ", " + x
  {
    assert Plain(", ");
    RenderSeparated(", ", x);
    Render(", {}", [x]).value
  }

  /** std::format_to(iter, "[") and std::format_to(iter, "]"). */
  function Bracket(open: bool): (s: string)
    ensures s == if open then "[" else "]"
  {
    assert Plain("[") && Plain("]");
    RenderText("[");
    RenderText("]");
    Render(if open then "[" else "]", []).value
  }

  /** The range formatter: "[", the first element, ", " and the next for
    * each further element, then "]". */
  method FormatRange(elems: seq<string>) returns (out: string)
    ensures out == "[" + Join(elems) + "]"
  {
    out := Bracket(true);
    var i := 0;
    if i != |elems| {
      out := out + FirstPiece(elems[0]);
      JoinOne(elems[0]);
      assert elems[..1] == [elems[0]];
      i := i + 1;
      while i != |elems|
        invariant 1 <= i <= |elems|
        invariant out == "[" + Join(elems[..i])
      {
        ghost var done := Join(elems[..i]);
        out := out + NextPiece(elems[i]);
        assert elems[..i + 1] == elems[..i] + [elems[i]];
        JoinSnoc(elems[..i], elems[i]);
        Assoc("[", done, ", " + elems[i]);
        Assoc(done, ", ", elems[i]);
        i := i + 1;
      }
      assert elems[..i] == elems;
    }
    out := out + Bracket(false);
  }

  /** std::bitset::to_string: bit n-1 first, '1' for a set bit. */
  function BitText(bits: seq<bool>): (s: string)
    ensures |s| == |bits|
  {
    seq(|bits|, k requires 0 <= k < |bits| => if bits[|bits| - 1 - k] then '1' else '0')
  }

  /** A bitset prints as its bits, the highest first. */
  function FormatBitset(bits: seq<bool>): (s: string)
    ensures |s| == |bits|
    ensures forall k | 0 <= k < |bits| :: s[k] == (if bits[|bits| - 1 - k] then '1' else '0')
  {
    FirstPiece(BitText(bits))
  }

  /** An aggregate prints as the tuple of its members. */
  function FormatAggregate(members: seq<string>): (s: string)
    ensures s == "(" + Join(members) + ")"
  {
    FirstPiece(FormatTuple(members))
  }
}
