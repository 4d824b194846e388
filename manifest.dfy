/** The manifest of stack.go: the list file that names the tables of the
    stack, one per line (`readNames`, and the `strings.Join(names, "\n")`
    that `add` and `compactRange` write), and the table names made by
    `formatName`. Bytes of the file are taken one for one as characters. */
module Manifest {
  import opened Bytes
  import opened Sequences

  const Newline: char := '\n'

  // ---------------------------------------------------------------------
  // Lines

  /** `bytes.Split(c, "\n")`: the pieces between newlines, so `n` newlines
      give `n + 1` pieces. */
  function Split(c: string): (r: seq<string>)
    ensures |r| >= 1
    decreases |c|
  {
    if c == [] then [[]]
    else Prepend(c[0], Split(c[1..]))
  }

  /** The pieces of a text once a character is put in front: a newline
      opens a new, empty first line; any other character joins the first. */
  function Prepend(x: char, rest: seq<string>): (r: seq<string>)
    requires |rest| >= 1
    ensures |r| >= 1
  {
    if x == Newline then [[]] + rest
    else [[x] + rest[0]] + rest[1..]
  }

  /** `strings.Join(names, "\n")`. */
  function Join(names: seq<string>): string
  {
    if names == [] then []
    else if |names| == 1 then names[0]
    else names[0] + [Newline] + Join(names[1..])
  }

  predicate NoNewline(s: string)
  {
    forall i :: 0 <= i < |s| ==> s[i] != Newline
  }

  /** A name as the manifest can hold it: a non-empty line. */
  predicate IsName(s: string)
  {
    s != [] && NoNewline(s)
  }

  /** Splitting loses nothing: joining the pieces gives the text back. */
  lemma {:induction false} JoinSplit(c: string)
    ensures Join(Split(c)) == c
    decreases |c|
  {
    if c != [] {
      JoinSplit(c[1..]);
      var rest := Split(c[1..]);
      if c[0] == Newline {
        assert ([[]] + rest)[1..] == rest;
      } else {
        var r := [[c[0]] + rest[0]] + rest[1..];
        assert r[1..] == rest[1..];
        if |rest| > 1 {
          assert rest[1..][1..] == rest[2..] && Join(rest) == rest[0] + [Newline] + Join(rest[1..]);
        }
      }
    }
  }

  /** No piece holds a newline. */
  lemma {:induction false} SplitNoNewline(c: string)
    ensures forall k :: 0 <= k < |Split(c)| ==> NoNewline(Split(c)[k])
    decreases |c|
  {
    if c != [] {
      SplitNoNewline(c[1..]);
      var rest := Split(c[1..]);
      if c[0] != Newline {
        var r := [[c[0]] + rest[0]] + rest[1..];
        assert forall k :: 1 <= k < |r| ==> r[k] == rest[k];
        assert NoNewline(rest[0]);
      }
    }
  }

  /** A text without newlines ahead of another: it lengthens the first
      piece and leaves the others. */
  lemma {:induction false} SplitPrefix(s: string, t: string)
    requires NoNewline(s)
    ensures Split(s + t) == [s + Split(t)[0]] + Split(t)[1..]
    decreases |s|
  {
    if s != [] {
      assert (s + t)[1..] == s[1..] + t;
      assert NoNewline(s[1..]) by {
        assert forall i :: 0 <= i < |s[1..]| ==> s[1..][i] == s[i + 1];
      }
      SplitPrefix(s[1..], t);
      var r := Split(s[1..] + t);
      assert r[0] == s[1..] + Split(t)[0] && r[1..] == Split(t)[1..];
      assert (s + t)[0] == s[0] != Newline;
      assert Split(s + t) == [[s[0]] + r[0]] + r[1..];
      assert [s[0]] + r[0] == s + Split(t)[0] by {
        assert [s[0]] + s[1..] == s;
      }
    } else {
      assert s + t == t;
      assert s + Split(t)[0] == Split(t)[0];
      assert Split(t) == [Split(t)[0]] + Split(t)[1..];
    }
  }

  /** Splitting a join of lines without newlines gives the lines back. */
  lemma {:induction false} SplitJoin(names: seq<string>)
    requires names != []
    requires forall k :: 0 <= k < |names| ==> NoNewline(names[k])
    ensures Split(Join(names)) == names
    decreases |names|
  {
    if |names| == 1 {
      SplitPrefix(names[0], []);
      assert names[0] + [] == names[0];
    } else {
      var rest := names[1..];
      SplitJoin(rest);
      var t := [Newline] + Join(rest);
      assert t[1..] == Join(rest);
      assert Split(t) == [[]] + rest;
      assert names[0] + [Newline] + Join(rest) == names[0] + t;
      SplitPrefix(names[0], t);
      assert names[0] + [] == names[0];
      assert names == [names[0]] + rest;
    }
  }

  /** A line that holds something. */
  predicate IsLine(l: string)
  {
    l != []
  }

  /** The names a manifest holds: its non-empty lines. */
  function Names(c: string): seq<string>
  {
    Filter(Split(c), IsLine)
  }

  /** Every name read back is a non-empty line without a newline, and
      every non-empty line is read back. */
  lemma NamesAreNames(c: string)
    ensures forall k :: 0 <= k < |Names(c)| ==> IsName(Names(c)[k])
    ensures forall s :: s in Names(c) <==> s in Split(c) && s != []
  {
    FilterKeeps(Split(c), IsLine);
    SplitNoNewline(c);
    forall k | 0 <= k < |Names(c)|
      ensures IsName(Names(c)[k])
    {
      var s := Names(c)[k];
      assert s in Split(c);
    }
  }

  /** What `add` and `compactRange` write is read back as the same names. */
  lemma NamesRoundTrip(names: seq<string>)
    requires forall k :: 0 <= k < |names| ==> IsName(names[k])
    ensures Names(Join(names)) == names
  {
    if names != [] {
      SplitJoin(names);
    }
    FilterAll(names, IsLine);
  }

  /** `Split` of a text with a first character. */
  lemma SplitCons(x: char, c: string)
    ensures Split([x] + c) == Prepend(x, Split(c))
  {
    assert ([x] + c)[1..] == c;
  }

  /** The pieces of two texts joined by a newline are the pieces of each. */
  lemma {:induction false} SplitAppend(a: string, b: string)
    ensures Split(a + [Newline] + b) == Split(a) + Split(b)
    decreases |a|
  {
    if a == [] {
      assert a + [Newline] + b == [Newline] + b;
      SplitCons(Newline, b);
    } else {
      SplitAppend(a[1..], b);
      SplitAppendStep(a, b);
    }
  }

  /** The step of `SplitAppend`: one more character in front. */
  lemma SplitAppendStep(a: string, b: string)
    requires a != [] && Split(a[1..] + [Newline] + b) == Split(a[1..]) + Split(b)
    ensures Split(a + [Newline] + b) == Split(a) + Split(b)
  {
    var x, a' := a[0], a[1..];
    assert a + [Newline] + b == [x] + (a' + [Newline] + b);
    assert a == [x] + a';
    SplitCons(x, a' + [Newline] + b);
    SplitCons(x, a');
    PrependAppend(x, Split(a'), Split(b));
  }

  /** Putting a character in front of two lists of pieces touches only the
      first list. */
  lemma PrependAppend(x: char, r: seq<string>, t: seq<string>)
    requires |r| >= 1
    ensures Prepend(x, r + t) == Prepend(x, r) + t
  {
    if x != Newline {
      assert (r + t)[0] == r[0] && (r + t)[1..] == r[1..] + t;
    }
  }

  /** Reading a newline-joined text reads each side: lines are
      independent of one another. */
  lemma NamesAppend(a: string, b: string)
    ensures Names(a + [Newline] + b) == Names(a) + Names(b)
  {
    SplitAppend(a, b);
    FilterAppend(Split(a), Split(b), IsLine);
  }

  /** An empty text holds no names, and a single line holds itself. */
  lemma NamesOfLine(a: string)
    requires NoNewline(a)
    ensures Names(a) == if a == [] then [] else [a]
  {
    if a == [] {
      var l: seq<string> := [[]];
      assert Split(a) == l;
      assert l[..|l| - 1] == [];
      assert Filter(l, IsLine) == Filter([], IsLine) + [];
    } else {
      SplitPrefix(a, []);
      assert a + [] == a;
      assert Split([]) == [[]];
      var l: seq<string> := [a];
      assert Split(a) == l;
      assert l[..|l| - 1] == [];
      assert Filter(l, IsLine) == Filter([], IsLine) + [a];
    }
  }

  /** A blank line and a trailing newline are skipped. */
  lemma NamesSkipBlank(a: string, b: string)
    requires IsName(a) && IsName(b)
    ensures Names(a + [Newline, Newline] + b + [Newline]) == [a, b]
  {
    var tail := [Newline] + b + [Newline];
    NamesBlankLine(b);
    NamesOfLine(a);
    NamesAppend(a, tail);
    assert a + [Newline] + tail == a + [Newline, Newline] + b + [Newline];
  }

  /** A blank line, then a name ending in a newline. */
  lemma NamesBlankLine(b: string)
    requires IsName(b)
    ensures Names([Newline] + b + [Newline]) == [b]
  {
    var e: string := [];
    NamesTrailing(b);
    NamesOfLine(e);
    NamesAppend(e, b + [Newline]);
    assert e + [Newline] + (b + [Newline]) == [Newline] + b + [Newline];
  }

  /** A name followed by a newline. */
  lemma NamesTrailing(b: string)
    requires IsName(b)
    ensures Names(b + [Newline]) == [b]
  {
    var e: string := [];
    NamesOfLine(b);
    NamesOfLine(e);
    NamesAppend(b, e);
    assert b + [Newline] + e == b + [Newline];
  }


  /** What reading the list file finds. */
  datatype ManifestFile = Missing | Unreadable | Present(text: string)

  /** What `readNames` gives for a list file. */
  function NamesIn(file: ManifestFile): Option<seq<string>>
  {
    match file
    case Missing => Some([])
    case Unreadable => None
    case Present(c) => Some(Names(c))
  }

  /** `readNames`: a missing file is an empty stack, any other read error
      is reported (`None`), and otherwise the names are the non-empty
      lines. */
  method ReadNames(file: ManifestFile) returns (names: Option<seq<string>>)
    ensures file.Missing? ==> names == Some([])
    ensures file.Unreadable? ==> names.None?
    ensures file.Present? ==> names == Some(Names(file.text))
    ensures names == NamesIn(file)
  {
    match file
    case Missing =>
      return Some([]);
    case Unreadable =>
      return None;
    case Present(c) =>
      var lines := Split(c);
      var res: seq<string> := [];
      var i := 0;
      while i < |lines|
        invariant 0 <= i <= |lines|
        invariant res == Filter(lines[..i], IsLine)
      {
        assert lines[..i + 1][..i] == lines[..i];
        if |lines[i]| > 0 {
          res := res + [lines[i]];
        }
        i := i + 1;
      }
      assert lines[..i] == lines;
      return Some(res);
  }

  // ---------------------------------------------------------------------
  // Table names

  function HexDigit(d: nat): (c: char)
    requires d < 16
  {
    if d < 10 then (48 + d) as char else (87 + d) as char
  }

  predicate IsHexDigit(c: char)
  {
    '0' <= c <= '9' || 'a' <= c <= 'f'
  }

  function DigitValue(c: char): nat
  {
    if '0' <= c <= '9' then c as int - 48
    else if 'a' <= c <= 'f' then c as int - 87
    else 0
  }

  /** `fmt`'s `%0*x`: `x` in lower-case hexadecimal, padded with zeros to
      at least `w` digits. */
  function Hex(x: nat, w: nat): (s: string)
    ensures |s| >= 1 && |s| >= w
    decreases x, w
  {
    if x < 16 && w <= 1 then [HexDigit(x)]
    else Hex(x / 16, if w > 0 then w - 1 else 0) + [HexDigit(x % 16)]
  }

  /** Reads hexadecimal digits back. */
  function ParseHex(s: string): nat
  {
    if s == [] then 0 else 16 * ParseHex(s[..|s| - 1]) + DigitValue(s[|s| - 1])
  }

  /** `Hex` writes only hexadecimal digits, and they read back as `x`. */
  lemma {:induction false} HexRoundTrip(x: nat, w: nat)
    ensures forall i :: 0 <= i < |Hex(x, w)| ==> IsHexDigit(Hex(x, w)[i])
    ensures ParseHex(Hex(x, w)) == x
    decreases x, w
  {
    if !(x < 16 && w <= 1) {
      var p := Hex(x / 16, if w > 0 then w - 1 else 0);
      HexRoundTrip(x / 16, if w > 0 then w - 1 else 0);
      var s := p + [HexDigit(x % 16)];
      assert s[..|s| - 1] == p;
      assert DigitValue(HexDigit(x % 16)) == x % 16;
    } else {
      assert DigitValue(HexDigit(x)) == x;
    }
  }

  function Pow16(n: nat): (p: nat)
    ensures p > 0
  {
    if n == 0 then 1 else 16 * Pow16(n - 1)
  }

  /** A number below `16^w` takes exactly `w` digits. */
  lemma {:induction false} HexWidth(x: nat, w: nat)
    requires 1 <= w && x < Pow16(w)
    ensures |Hex(x, w)| == w
    decreases w
  {
    if w > 1 {
      HexWidth(x / 16, w - 1);
    }
  }

  /** `formatName(min, max)`: `%012x-%012x`. */
  function FormatName(min: U64, max: U64): string
  {
    Hex(min, 12) + ("-" + Hex(max, 12))
  }

  /** A table name, `.ref` appended, is a line the list file can hold. */
  lemma TableNameIsName(min: U64, max: U64)
    ensures IsName(FormatName(min, max) + ".ref")
  {
    HexRoundTrip(min, 12);
    HexRoundTrip(max, 12);
    var s := FormatName(min, max) + ".ref";
    var a, b := Hex(min, 12), Hex(max, 12);
    assert s == a + ("-" + b) + ".ref";
    forall i | 0 <= i < |s|
      ensures s[i] != Newline
    {
      if i < |a| {
        assert s[i] == a[i];
      } else if i == |a| {
        assert s[i] == '-';
      } else if i < |a| + 1 + |b| {
        assert s[i] == b[i - |a| - 1];
      }
    }
  }

  /** Update indices below 2^48 give names of 25 characters, with the dash
      in the middle. */
  lemma FormatNameLength(min: U64, max: U64)
    requires min < Pow16(12) && max < Pow16(12)
    ensures |FormatName(min, max)| == 25 && FormatName(min, max)[12] == '-'
  {
    HexWidth(min, 12);
    HexWidth(max, 12);
  }

  /** The position of the first dash, or the length when there is none. */
  function DashIndex(s: string): (i: nat)
    ensures i <= |s|
  {
    if s == [] || s[0] == '-' then 0 else 1 + DashIndex(s[1..])
  }

  lemma {:induction false} DashIndexOf(h: string, t: string)
    requires forall i :: 0 <= i < |h| ==> IsHexDigit(h[i])
    requires t != [] && t[0] == '-'
    ensures DashIndex(h + t) == |h|
    decreases |h|
  {
    if h == [] {
      assert h + t == t;
    } else {
      assert (h + t)[1..] == h[1..] + t;
      DashIndexOf(h[1..], t);
    }
  }

  /** Different update-index ranges give different names. */
  lemma FormatNameInjective(a: U64, b: U64, c: U64, d: U64)
    requires FormatName(a, b) == FormatName(c, d)
    ensures a == c && b == d
  {
    var ha, hb, hc, hd := Hex(a, 12), Hex(b, 12), Hex(c, 12), Hex(d, 12);
    HexRoundTrip(a, 12);
    HexRoundTrip(b, 12);
    HexRoundTrip(c, 12);
    HexRoundTrip(d, 12);
    var s := FormatName(a, b);
    assert s == ha + ("-" + hb) && s == hc + ("-" + hd);
    DashIndexOf(ha, "-" + hb);
    DashIndexOf(hc, "-" + hd);
    assert ha == s[..|ha|] == hc;
    assert hb == s[|ha| + 1..] == hd;
  }

  /** The name of the table with update indices 1 to 1. */
  lemma FormatNameExample()
    ensures FormatName(1, 1) == "000000000001-000000000001"
  {
    HexSmall(1, 12);
    var z := seq(11, _ => '0');
    assert z == "00000000000";
  }

  /** A single hexadecimal digit behind `w - 1` zeros. */
  lemma {:induction false} HexSmall(x: nat, w: nat)
    requires x < 16 && w >= 1
    ensures Hex(x, w) == seq(w - 1, _ => '0') + [HexDigit(x)]
    decreases w
  {
    if w > 1 {
      HexSmall(0, w - 1);
      assert seq(w - 2, _ => '0') + [HexDigit(0)] == seq(w - 1, _ => '0');
    }
  }
}
