/**
  The two string operations the maze's text form relies on: Ruby's
  `Array#join(sep)` and `String#split(sep)` with a one-character separator.
  `split` cuts at every separator and then, as Ruby does, drops trailing
  empty fields.
 */
module Text {

  /** The lines glued together with `sep` between consecutive ones. */
  function Join(lines: seq<string>, sep: char): string
    decreases |lines|
  {
    if |lines| == 0 then ""
    else if |lines| == 1 then lines[0]
    else lines[0] + [sep] + Join(lines[1..], sep)
  }

  /** The pieces of `s` between separators, empty pieces included. */
  function Fields(s: string, sep: char): (r: seq<string>)
    ensures |r| >= 1
    ensures forall i :: 0 <= i < |r| ==> sep !in r[i]
    decreases |s|
  {
    if |s| == 0 then [""]
    else
      var rest := Fields(s[1..], sep);
      if s[0] == sep then [""] + rest
      else [[s[0]] + rest[0]] + rest[1..]
  }

  function DropTrailingEmpty(fields: seq<string>): (r: seq<string>)
    ensures |r| <= |fields| && r == fields[..|r|]
    ensures r == [] || r[|r| - 1] != ""
    ensures forall i :: |r| <= i < |fields| ==> fields[i] == ""
    decreases |fields|
  {
    if |fields| > 0 && fields[|fields| - 1] == "" then DropTrailingEmpty(fields[..|fields| - 1])
    else fields
  }

  /** Ruby's `s.split(sep)` for a one-character string `sep` other than a space. */
  function Split(s: string, sep: char): seq<string> {
    DropTrailingEmpty(Fields(s, sep))
  }

  /** Joining the fields of a string gives the string back. */
  lemma {:induction false} JoinFields(s: string, sep: char)
    ensures Join(Fields(s, sep), sep) == s
    decreases |s|
  {
    if |s| > 0 {
      var rest := Fields(s[1..], sep);
      JoinFields(s[1..], sep);
      if s[0] == sep {
        assert Fields(s, sep) == [""] + rest;
        assert ([""] + rest)[1..] == rest;
        assert s == [sep] + s[1..];
      } else {
        var f := [[s[0]] + rest[0]] + rest[1..];
        assert Fields(s, sep) == f;
        if |rest| == 1 {
          assert s == [s[0]] + rest[0];
        } else {
          assert f[1..] == rest[1..];
          assert Join(rest, sep) == rest[0] + [sep] + Join(rest[1..], sep);
          assert s == [s[0]] + s[1..];
        }
      }
    }
  }

  /** A prefix without separators sticks to the first field of what follows. */
  lemma {:induction false} FieldsPrefix(a: string, t: string, sep: char)
    requires sep !in a
    ensures Fields(a + t, sep) == [a + Fields(t, sep)[0]] + Fields(t, sep)[1..]
    decreases |a|
  {
    if |a| > 0 {
      assert (a + t)[1..] == a[1..] + t;
      assert (a + t)[0] == a[0];
      FieldsPrefix(a[1..], t, sep);
      var f := Fields(t, sep);
      var rest := Fields(a[1..] + t, sep);
      assert a[0] != sep;
      assert Fields(a + t, sep) == [[a[0]] + rest[0]] + rest[1..];
      assert rest[0] == a[1..] + f[0] && rest[1..] == f[1..];
      assert [a[0]] + (a[1..] + f[0]) == a + f[0];
    } else {
      var f := Fields(t, sep);
      assert a + t == t;
      assert a + f[0] == f[0];
      assert [f[0]] + f[1..] == f;
    }
  }

  /** Splitting joined lines at the separator gives the lines back, provided
      no line holds the separator. */
  lemma {:induction false} FieldsJoin(lines: seq<string>, sep: char)
    requires |lines| >= 1
    requires forall i :: 0 <= i < |lines| ==> sep !in lines[i]
    ensures Fields(Join(lines, sep), sep) == lines
    decreases |lines|
  {
    if |lines| == 1 {
      FieldsPrefix(lines[0], "", sep);
      assert lines[0] + "" == lines[0];
    } else {
      var tail := Join(lines[1..], sep);
      FieldsJoin(lines[1..], sep);
      FieldsPrefix(lines[0], [sep] + tail, sep);
      assert ([sep] + tail)[1..] == tail;
      assert Fields([sep] + tail, sep) == [""] + lines[1..];
      assert lines[0] + "" == lines[0];
      assert lines[0] + [sep] + tail == lines[0] + ([sep] + tail);
      assert lines == [lines[0]] + lines[1..];
    }
  }

  /** Ruby's split undoes join when no line holds the separator and the last
      line is not empty (otherwise split would drop it). */
  lemma SplitJoin(lines: seq<string>, sep: char)
    requires forall i :: 0 <= i < |lines| ==> sep !in lines[i]
    requires lines == [] || lines[|lines| - 1] != ""
    ensures Split(Join(lines, sep), sep) == lines
  {
    if lines == [] {
      assert Fields("", sep) == [""];
      assert DropTrailingEmpty([""]) == DropTrailingEmpty([]);
    } else {
      FieldsJoin(lines, sep);
    }
  }
}
