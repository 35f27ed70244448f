/**
 * The std::formatter specialisations of template/formatter.h: tuples print
 * in angle brackets through a NUL-terminated format string, pairs as
 * "<a, b>". Values are texts (their own formatting is not modelled) or
 * tuples of values, so nested tuples print recursively.
 */
module Formatter {
  import opened Wrappers
  import opened Format
  import TupleProduct

  /** make_tuple_format<n>: {'<', '>', NUL} for no element; otherwise
    * 4n + 1 zero-filled cells holding "<{}", one ", {}" per further
    * element, ">" in cell 4n - 1, and the last cell left NUL. */
  method MakeTupleFormat(n: nat) returns (result: array<char>)
    ensures fresh(result) && result[..] == TupleFormat(n, '<', '>') + ['\0']
  {
    if n == 0 {
      result := new char[3](i => if i == 0 then '<' else if i == 1 then '>' else '\0');
      assert result[..] == ['<', '>', '\0'];
      return;
    }
    result := new char[4 * n + 1](_ => '\0');
    result[0] := '<';
    result[1] := '{';
    result[2] := '}';
    for i := 1 to n
      invariant result[0] == '<' && result[1] == '{' && result[2] == '}'
      invariant forall k | 3 <= k < 4 * i - 1 :: result[k] == ", {}"[(k - 3) % 4]
      invariant forall k | 4 * i - 1 <= k < 4 * n + 1 :: result[k] == '\0'
    {
      result[4 * i - 1] := ',';
      result[4 * i] := ' ';
      result[4 * i + 1] := '{';
      result[4 * i + 2] := '}';
    }
    result[4 * n - 1] := '>';
    CellsAreFormat(result[..], n);
  }

  lemma CellsAreFormat(cells: seq<char>, n: nat)
    requires n > 0 && |cells| == 4 * n + 1
    requires cells[0] == '<' && cells[1] == '{' && cells[2] == '}'
    requires cells[4 * n - 1] == '>' && cells[4 * n] == '\0'
    requires forall k | 3 <= k < 4 * n - 1 :: cells[k] == ", {}"[(k - 3) % 4]
    ensures cells == TupleFormat(n, '<', '>') + ['\0']
  {
    TupleFormatCells(n, '<', '>');
    var want := TupleFormat(n, '<', '>') + ['\0'];
    assert forall k | 0 <= k < 4 * n + 1 :: cells[k] == want[k];
  }

  /** The text a NUL-terminated character array holds: everything before
    * the first NUL. */
  function CString(cells: seq<char>): (s: string)
    ensures |s| <= |cells| && s == cells[..|s|]
    ensures '\0' !in s
    ensures |s| < |cells| ==> cells[|s|] == '\0'
  {
    if cells == [] || cells[0] == '\0' then [] else [cells[0]] + CString(cells[1..])
  }

  /** A text without NUL, terminated, reads back as itself. */
  lemma {:induction false} CStringTerminated(s: string)
    requires '\0' !in s
    ensures CString(s + ['\0']) == s
    decreases |s|
  {
    if s == [] {
      assert s + ['\0'] == ['\0'];
    } else {
      assert (s + ['\0'])[1..] == s[1..] + ['\0'];
      assert s[0] in s;
      assert forall c | c in s[1..] :: c in s;
      CStringTerminated(s[1..]);
      assert [s[0]] + s[1..] == s;
    }
  }

  lemma FormatHasNoNul(n: nat)
    ensures '\0' !in TupleFormat(n, '<', '>')
  {
    TupleFormatCells(n, '<', '>');
    var f := TupleFormat(n, '<', '>');
    forall k | 0 <= k < |f|
      ensures f[k] != '\0'
    {
      if 3 <= k < 4 * n - 1 {
        assert ", {}"[(k - 3) % 4] in ", {}";
      }
    }
  }

  /** A tuple prints as its elements in angle brackets, separated by ", ":
    * data() of the format array is read as a C string, which stops at the
    * trailing NUL. */
  function FormatTuple(elems: seq<string>): (s: string)
    ensures s == "<" + Join(elems) + ">"
  {
    FormatHasNoNul(|elems|);
    CStringTerminated(TupleFormat(|elems|, '<', '>'));
    RenderTuple(elems, '<', '>');
    Render(CString(TupleFormat(|elems|, '<', '>') + ['\0']), elems).value
  }

  /** A pair prints as "<a, b>". */
  function FormatPair(a: string, b: string): (s: string)
    ensures s == "<" + a + ", " + b + ">"
  {
    assert "<" + "{}" + ", " + "{}" + ">" == "<{}, {}>";
    assert Plain("<") && Plain(", ") && Plain(">");
    RenderTwo("<", a, ", ", b, ">");
    Render("<{}, {}>", [a, b]).value
  }

  /** A value to print: a text printed by its own formatter, or a tuple. */
  datatype Value = Text(text: string) | Tuple(items: seq<Value>)

  function Show(v: Value): string
    decreases v
  {
    match v
    case Text(t) => t
    case Tuple(items) => FormatTuple(seq(|items|, i requires 0 <= i < |items| => Show(items[i])))
  }

  /** A tuple shows as the texts of its items, in angle brackets. */
  lemma ShowTuple(items: seq<Value>)
    ensures Show(Tuple(items)) == "<" + Join(seq(|items|, i requires 0 <= i < |items| => Show(items[i]))) + ">"
  {
  }

  /** The empty tuple shows as "<>". */
  lemma ShowEmpty()
    ensures Show(Tuple([])) == "<>"
  {
    assert Join([]) == "";
  }

  /** Four texts joined. */
  lemma JoinFour(a: string, b: string, c: string, d: string)
    ensures Join([a, b, c, d]) == a + ", " + b + ", " + c + ", " + d
  {
    JoinOne(a);
    assert [a] + [b] == [a, b];
    JoinSnoc([a], b);
    assert [a, b] + [c] == [a, b, c];
    JoinSnoc([a, b], c);
    assert [a, b, c] + [d] == [a, b, c, d];
    JoinSnoc([a, b, c], d);
  }

  /** A four-item tuple, as in the elements of unit_test1. */
  lemma ShowFour(a: Value, b: Value, c: Value, d: Value)
    ensures Show(Tuple([a, b, c, d])) ==
      "<" + (Show(a) + ", " + Show(b) + ", " + Show(c) + ", " + Show(d)) + ">"
  {
    var items := [a, b, c, d];
    ShowTuple(items);
    var texts := seq(|items|, i requires 0 <= i < |items| => Show(items[i]));
    assert texts == [Show(a), Show(b), Show(c), Show(d)] by {
      assert texts[0] == Show(a) && texts[1] == Show(b) && texts[2] == Show(c) && texts[3] == Show(d);
    }
    JoinFour(Show(a), Show(b), Show(c), Show(d));
  }

  /** A tuple product prints as its combinations, each in angle brackets,
    * inside one more pair of angle brackets (the text unit_test1 expects). */
  lemma ShowProduct(tuples: seq<seq<Value>>)
    ensures var p := TupleProduct.Product(tuples);
      Show(Tuple(seq(|p|, k requires 0 <= k < |p| => Tuple(p[k])))) ==
      "<" + Join(seq(|p|, k requires 0 <= k < |p| =>
        "<" + Join(seq(|p[k]|, i requires 0 <= i < |p[k]| => Show(p[k][i]))) + ">")) + ">"
  {
    var p := TupleProduct.Product(tuples);
    var items := seq(|p|, k requires 0 <= k < |p| => Tuple(p[k]));
    var texts := seq(|items|, k requires 0 <= k < |items| => Show(items[k]));
    var want := seq(|p|, k requires 0 <= k < |p| =>
      "<" + Join(seq(|p[k]|, i requires 0 <= i < |p[k]| => Show(p[k][i]))) + ">");
    forall k | 0 <= k < |p|
      ensures texts[k] == want[k]
    {
      ShowTuple(p[k]);
    }
    assert texts == want;
    ShowTuple(items);
  }
}
