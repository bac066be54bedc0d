/** The cell values a data table shows and the string operations its filter
    uses: JavaScript truthiness, `toLowerCase` and `includes`. */
module TableValues {
  import opened Options

  /** A cell: `null`/`undefined`, a number with its `String()` rendering, or a
      string. */
  datatype Value = Null | Num(x: real, text: string) | Str(s: string)

  /** A row maps column keys to cells; an absent key reads as `undefined`. */
  type Row = map<string, Value>

  /** `row[key]`. */
  function Get(row: Row, key: string): Value
  {
    if key in row then row[key] else Null
  }

  /** JavaScript truthiness of a cell: a non-zero number or a non-empty string. */
  predicate Truthy(v: Value)
  {
    match v
    case Null => false
    case Num(x, _) => x != 0.0
    case Str(s) => s != ""
  }

  /** `String(v)` for a present cell. */
  function Text(v: Value): string
  {
    match v
    case Null => "null"
    case Num(_, text) => text
    case Str(s) => s
  }

  /** `toLowerCase` on one character (ASCII letters only). */
  function LowerChar(c: char): (d: char)
    ensures 'A' <= c <= 'Z' ==> d as int == c as int + 32
    ensures !('A' <= c <= 'Z') ==> d == c
  {
    if 'A' <= c <= 'Z' then (c as int + 32) as char else c
  }

  /** `toLowerCase`: every upper-case ASCII letter replaced by its lower case. */
  function Lower(s: string): (t: string)
    ensures |t| == |s|
    ensures forall i :: 0 <= i < |s| ==> t[i] == LowerChar(s[i])
  {
    if s == [] then [] else [LowerChar(s[0])] + Lower(s[1..])
  }

  /** `needle` is a prefix of `hay`. */
  predicate StartsWith(hay: string, needle: string)
  {
    |needle| <= |hay| && hay[..|needle|] == needle
  }

  /** `hay.includes(needle)`, scanning the start positions from the left. */
  predicate Includes(hay: string, needle: string)
    decreases |hay|
  {
    StartsWith(hay, needle) || (hay != [] && Includes(hay[1..], needle))
  }

  /** `needle` occurs in `hay` starting at position i. */
  predicate OccursAt(hay: string, needle: string, i: int)
  {
    0 <= i <= |hay| - |needle| && hay[i..i + |needle|] == needle
  }

  /** `includes` finds exactly the needles that occur at some position. */
  lemma {:induction false} IncludesIffOccurs(hay: string, needle: string)
    ensures Includes(hay, needle) <==> exists i :: OccursAt(hay, needle, i)
    decreases |hay|
  {
    if StartsWith(hay, needle) {
      assert OccursAt(hay, needle, 0);
    } else if hay != [] {
      IncludesIffOccurs(hay[1..], needle);
      if Includes(hay[1..], needle) {
        var i :| OccursAt(hay[1..], needle, i);
        assert hay[i + 1..i + 1 + |needle|] == hay[1..][i..i + |needle|];
        assert OccursAt(hay, needle, i + 1);
      }
      if exists i :: OccursAt(hay, needle, i) {
        var i :| OccursAt(hay, needle, i);
        assert i != 0;
        assert hay[1..][i - 1..i - 1 + |needle|] == hay[i..i + |needle|];
        assert OccursAt(hay[1..], needle, i - 1);
      }
    }
  }

  /** The empty string is included in every string. */
  lemma EmptyIncluded(hay: string)
    ensures Includes(hay, "")
  {
  }
}
