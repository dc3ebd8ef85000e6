/** The text block that `cache inspect` and `cache search` print for one
    cached document: a title line naming the file, then one line per scalar
    field of the document, in key order. */
module Render {
  import opened Wrappers
  import opened JsonValue
  import opened CacheData

  /** The width of the `:<12` format spec used for keys and for the title label. */
  const KeyWidth: nat := 12

  /** `n` spaces. */
  function Spaces(n: nat): (r: string)
    ensures |r| == n
    ensures forall i :: 0 <= i < n ==> r[i] == ' '
  {
    if n == 0 then "" else Spaces(n - 1) + " "
  }

  /** Python's `f"{s:<width}"`: `s` left-aligned and padded with spaces on
      the right up to `width` characters; a longer `s` is not cut. */
  function LeftAlign(s: string, width: nat): (r: string)
    ensures |r| == if |s| < width then width else |s|
    ensures r[..|s|] == s
    ensures forall i :: |s| <= i < |r| ==> r[i] == ' '
  {
    if |s| < width then s + Spaces(width - |s|) else s
  }

  /** Python's `str()` of a scalar JSON value; numbers use the renderer `showNum`. */
  function Show(v: Json, showNum: real -> string): (r: string)
    requires !IsContainer(v)
    ensures v.Null? ==> r == "None"
    ensures v.Bool? ==> r == (if v.b then "True" else "False")
    ensures v.Num? ==> r == showNum(v.n)
    ensures v.Str? ==> r == v.s
  {
    match v
    case Null => "None"
    case Bool(b) => if b then "True" else "False"
    case Num(n) => showNum(n)
    case Str(s) => s
  }

  /** The line `f"{key:<12} {value}\n"` for one scalar field. */
  function FieldLine(key: string, value: Json, showNum: real -> string): string
    requires !IsContainer(value)
  {
    LeftAlign(key, KeyWidth) + " " + Show(value, showNum) + "\n"
  }

  /** A field line reads back as: the key, spaces up to column
      max(12, |key|), one space, the rendered value, and a newline. */
  lemma FieldLineLayout(key: string, value: Json, showNum: real -> string)
    requires !IsContainer(value)
    ensures var r := FieldLine(key, value, showNum);
            var w := if |key| < KeyWidth then KeyWidth else |key|;
            && |r| == w + 1 + |Show(value, showNum)| + 1
            && r[..|key|] == key
            && (forall i :: |key| <= i < w ==> r[i] == ' ')
            && r[w] == ' '
            && r[w + 1 .. |r| - 1] == Show(value, showNum)
            && r[|r| - 1] == '\n'
  {
    var padded := LeftAlign(key, KeyWidth);
    var r := padded + " " + Show(value, showNum) + "\n";
    assert r[..|key|] == padded[..|key|];
    assert r[|padded| + 1 .. |r| - 1] == Show(value, showNum);
  }

  /** The fields of an object whose value is neither a dict nor a list, in key order. */
  function ScalarFields(fields: seq<(string, Json)>): (r: seq<(string, Json)>)
    ensures |r| <= |fields|
    ensures forall p :: p in r <==> p in fields && !IsContainer(p.1)
  {
    if fields == [] then []
    else
      var rest := ScalarFields(fields[1..]);
      assert forall p :: p in fields <==> p == fields[0] || p in fields[1..];
      if IsContainer(fields[0].1) then rest else [fields[0]] + rest
  }

  /** Keeping the scalar fields of two runs of fields in a row keeps those
      of the first run followed by those of the second. */
  lemma {:induction false} ScalarFieldsAppend(a: seq<(string, Json)>, b: seq<(string, Json)>)
    ensures ScalarFields(a + b) == ScalarFields(a) + ScalarFields(b)
  {
    if a == [] {
      assert a + b == b;
    } else {
      assert (a + b)[0] == a[0] && (a + b)[1..] == a[1..] + b;
      ScalarFieldsAppend(a[1..], b);
    }
  }

  /** A single field is kept, unchanged, exactly when it is scalar. */
  lemma ScalarFieldsOne(p: (string, Json))
    ensures ScalarFields([p]) == if IsContainer(p.1) then [] else [p]
  {
    assert [p][1..] == [];
  }

  /** The contents text: the fields visited in order, a scalar field
      contributing its line and a dict or list field nothing. */
  function Contents(fields: seq<(string, Json)>, showNum: real -> string): string {
    if fields == [] then ""
    else
      var (key, value) := fields[0];
      (if IsContainer(value) then "" else FieldLine(key, value, showNum))
        + Contents(fields[1..], showNum)
  }

  /** Lines joined without separator. */
  function Concat(lines: seq<string>): string {
    if lines == [] then "" else lines[0] + Concat(lines[1..])
  }

  /** The lines of the scalar fields, one per field, in order. */
  function ScalarLines(fields: seq<(string, Json)>, showNum: real -> string): (r: seq<string>)
    requires forall k :: 0 <= k < |fields| ==> !IsContainer(fields[k].1)
    ensures |r| == |fields|
    ensures forall k :: 0 <= k < |fields| ==> r[k] == FieldLine(fields[k].0, fields[k].1, showNum)
  {
    seq(|fields|, k requires 0 <= k < |fields| => FieldLine(fields[k].0, fields[k].1, showNum))
  }

  /** The contents are exactly the lines of the scalar fields, one per
      scalar field, in the object's key order. */
  lemma {:induction false} ContentsAreScalarLines(fields: seq<(string, Json)>, showNum: real -> string)
    ensures Contents(fields, showNum) == Concat(ScalarLines(ScalarFields(fields), showNum))
  {
    if fields != [] {
      ContentsAreScalarLines(fields[1..], showNum);
      var (key, value) := fields[0];
      var rest := ScalarFields(fields[1..]);
      if IsContainer(value) {
        assert ScalarFields(fields) == rest;
        assert Contents(fields, showNum) == Contents(fields[1..], showNum);
      } else {
        assert ScalarFields(fields) == [fields[0]] + rest;
        var lines := ScalarLines([fields[0]] + rest, showNum);
        assert lines[0] == FieldLine(key, value, showNum);
        assert lines[1..] == ScalarLines(rest, showNum);
        assert Concat(lines) == lines[0] + Concat(lines[1..]);
        assert Contents(fields, showNum) == FieldLine(key, value, showNum) + Contents(fields[1..], showNum);
      }
    }
  }

  /** Appending fields appends their contents. */
  lemma {:induction false} ContentsAppend(a: seq<(string, Json)>, b: seq<(string, Json)>, showNum: real -> string)
    ensures Contents(a + b, showNum) == Contents(a, showNum) + Contents(b, showNum)
  {
    if a == [] {
      assert a + b == b;
    } else {
      assert (a + b)[0] == a[0] && (a + b)[1..] == a[1..] + b;
      ContentsAppend(a[1..], b, showNum);
    }
  }

  /** The contents text built as the source builds it: start from the empty
      string and append the line of every scalar field, in key order. */
  method BuildContents(fields: seq<(string, Json)>, showNum: real -> string) returns (contents: string)
    ensures contents == Concat(ScalarLines(ScalarFields(fields), showNum))
  {
    contents := "";
    var i := 0;
    while i < |fields|
      invariant 0 <= i <= |fields|
      invariant contents == Contents(fields[..i], showNum)
    {
      var (key, value) := fields[i];
      if !IsContainer(value) {
        contents := contents + FieldLine(key, value, showNum);
      }
      ContentsAppend(fields[..i], [fields[i]], showNum);
      assert fields[..i + 1] == fields[..i] + [fields[i]];
      i := i + 1;
    }
    assert fields[..i] == fields;
    ContentsAreScalarLines(fields, showNum);
  }

  /** The title line `f"{'file_path':<12} {data_path}\n"`. */
  function Title(path: Path): (r: string)
    ensures r == "file_path    " + path + "\n"
  {
    LeftAlign("file_path", KeyWidth) + " " + path + "\n"
  }

  /** The block printed for one yielded entry: its title and its contents.
      A document that is not a dict has no `.items()`. */
  function Block(e: Entry, showNum: real -> string): (r: Result<string, Error>)
    ensures r.Err? <==> !e.doc.Obj?
    ensures r.Err? ==> r.error == NotAnObject
    ensures r.Ok? ==> r.value == Title(e.path) + Contents(e.doc.fields, showNum)
  {
    match e.doc
    case Obj(fields) => Ok(Title(e.path) + Contents(fields, showNum))
    case _ => Err(NotAnObject)
  }
}
