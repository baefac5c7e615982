/** The two PHP string functions the adapter's row decoding relies on,
    trim() with its default character set and implode(', ', ...), together
    with a splitter that undoes the join so the decoding can be shown lossless. */
module Text {
  import opened Seqs

  /** The characters PHP's trim() strips when no character list is passed:
      space, tab, line feed, carriage return, NUL and vertical tab. */
  predicate IsTrimChar(c: char) {
    c == ' ' || c == '\t' || c == '\n' || c == '\r' || c == '\0' || c == '\U{0B}'
  }

  /** Neither end of `s` is a character trim() would remove. */
  predicate Trimmed(s: string) {
    |s| == 0 || (!IsTrimChar(s[0]) && !IsTrimChar(s[|s| - 1]))
  }

  /** Strips trim characters from the front: what is left is a suffix of `s`
      and everything cut off was a trim character. */
  function TrimLeft(s: string): (r: string)
    ensures |r| <= |s| && r == s[|s| - |r|..]
    ensures |r| > 0 ==> !IsTrimChar(r[0])
    ensures forall i :: 0 <= i < |s| - |r| ==> IsTrimChar(s[i])
  {
    if |s| > 0 && IsTrimChar(s[0]) then TrimLeft(s[1..]) else s
  }

  /** Strips trim characters from the back: what is left is a prefix of `s`
      and everything cut off was a trim character. */
  function TrimRight(s: string): (r: string)
    ensures |r| <= |s| && r == s[..|r|]
    ensures |r| > 0 ==> !IsTrimChar(r[|r| - 1])
    ensures forall i :: |r| <= i < |s| ==> IsTrimChar(s[i])
  {
    if |s| > 0 && IsTrimChar(s[|s| - 1]) then TrimRight(s[..|s| - 1]) else s
  }

  /** PHP trim($s): the infix of `s` left after removing trim characters from
      both ends. The result has clean ends, a string with clean ends is left
      alone, and only trim characters are removed. */
  function Trim(s: string): (r: string)
    ensures Trimmed(r)
    ensures Trimmed(s) ==> r == s
    ensures exists a, b :: 0 <= a <= b <= |s| && r == s[a..b]
                           && (forall i :: 0 <= i < a ==> IsTrimChar(s[i]))
                           && (forall i :: b <= i < |s| ==> IsTrimChar(s[i]))
  {
    TrimClean(s);
    TrimKeepsTrimmed(s);
    TrimInfix(s);
    TrimCutsBack(s);
    TrimRight(TrimLeft(s))
  }

  /** Trimming the front and then the back leaves clean ends. */
  lemma TrimClean(s: string)
    ensures Trimmed(TrimRight(TrimLeft(s)))
  {
    var l := TrimLeft(s);
    var r := TrimRight(l);
    if |r| > 0 {
      assert r[0] == l[0];
    }
  }

  /** Trimming a string that already has clean ends changes nothing. */
  lemma TrimKeepsTrimmed(s: string)
    ensures Trimmed(s) ==> TrimRight(TrimLeft(s)) == s
  {
  }

  /** Trimming the front and then the back leaves an infix of `s`. */
  lemma TrimInfix(s: string)
    ensures var r, a := TrimRight(TrimLeft(s)), |s| - |TrimLeft(s)|;
            0 <= a <= a + |r| <= |s| && r == s[a..a + |r|]
  {
    var l := TrimLeft(s);
    var r := TrimRight(l);
    var a := |s| - |l|;
    assert l == s[a..];
    assert r == l[..|r|];
  }

  /** Trimming the back cuts off nothing but trim characters. */
  lemma TrimCutsBack(s: string)
    ensures var r, a := TrimRight(TrimLeft(s)), |s| - |TrimLeft(s)|;
            forall i :: a + |r| <= i < |s| ==> IsTrimChar(s[i])
  {
    var l := TrimLeft(s);
    var r := TrimRight(l);
    var a := |s| - |l|;
    forall i | a + |r| <= i < |s|
      ensures IsTrimChar(s[i])
    {
      assert s[i] == l[i - a];
    }
  }

  /** The separator the adapter passes to implode(). */
  const Separator: string := ", "

  /** PHP implode(', ', $xs): the fields in order, one separator between
      each neighbouring pair, none at either end. */
  function Join(xs: seq<string>): (r: string)
    ensures |xs| == 0 ==> r == ""
    ensures |xs| > 0 ==> xs[0] <= r
    ensures |xs| > 0 ==> |xs[|xs| - 1]| <= |r| && r[|r| - |xs[|xs| - 1]|..] == xs[|xs| - 1]
    ensures |r| >= |xs| * |Separator| - |Separator|
  {
    if |xs| == 0 then ""
    else if |xs| == 1 then xs[0]
    else xs[0] + Separator + Join(xs[1..])
  }

  /** A field in front of a non-empty list joins with one separator. */
  lemma JoinCons(x: string, xs: seq<string>)
    requires |xs| > 0
    ensures Join([x] + xs) == x + Separator + Join(xs)
  {
    assert ([x] + xs)[1..] == xs;
  }

  /** The join of two fields, spelled out. */
  lemma JoinTwo(a: string, b: string)
    ensures Join([a, b]) == (a + Separator) + b
  {
    assert [a, b][1..] == [b];
  }

  /** The join of three fields, spelled out. */
  lemma JoinThree(a: string, b: string, c: string)
    ensures Join([a, b, c]) == (a + Separator) + ((b + Separator) + c)
  {
    var tail := Join([b, c]);
    assert tail == (b + Separator) + c by {
      JoinTwo(b, c);
    }
    assert Join([a, b, c]) == (a + Separator) + tail by {
      JoinCons(a, [b, c]);
      assert [a] + [b, c] == [a, b, c];
    }
  }

  /** Index of the first `c` in `s`, or |s| when there is none. */
  function Find(s: string, c: char): (i: nat)
    ensures i <= |s|
    ensures i < |s| ==> s[i] == c
    ensures forall j :: 0 <= j < i ==> s[j] != c
  {
    if |s| == 0 || s[0] == c then 0 else 1 + Find(s[1..], c)
  }

  /** Drops one leading space, the second character of the separator. */
  function DropSpace(s: string): string {
    if |s| > 0 && s[0] == ' ' then s[1..] else s
  }

  /** Cuts `s` at every comma, dropping the space that follows one. */
  function SplitFields(s: string): (r: seq<string>)
    ensures |r| >= 1
    ensures forall k :: 0 <= k < |r| ==> ',' !in r[k]
    decreases |s|
  {
    var i := Find(s, ',');
    if i == |s| then [s] else [s[..i]] + SplitFields(DropSpace(s[i + 1..]))
  }

  /** Reads a joined line back into its fields; the empty line has none. */
  function Split(s: string): seq<string> {
    if s == "" then [] else SplitFields(s)
  }

  /** The first comma of a joined line sits right after the first field. */
  lemma {:induction false} FindAfterPrefix(a: string, b: string)
    requires ',' !in a
    requires |b| > 0 && b[0] == ','
    ensures Find(a + b, ',') == |a|
  {
    if |a| > 0 {
      assert (a + b)[1..] == a[1..] + b;
      FindAfterPrefix(a[1..], b);
    }
  }

  /** One step of the split: the head field is cut off and the rest of the
      line is the join of the remaining fields. */
  lemma SplitFieldsStep(x: string, tail: string)
    requires ',' !in x
    ensures SplitFields(x + Separator + tail) == [x] + SplitFields(tail)
  {
    var s := x + Separator + tail;
    assert s == x + (Separator + tail);
    FindAfterPrefix(x, Separator + tail);
    var i := |x|;
    assert s[..i] == x;
    assert s[i + 1..] == " " + tail;
    assert DropSpace(s[i + 1..]) == tail;
  }

  /** A single comma-free field splits to itself. */
  lemma SplitFieldsSingle(x: string)
    requires ',' !in x
    ensures SplitFields(x) == [x]
  {
    assert Find(x, ',') == |x|;
  }

  lemma {:induction false} SplitFieldsJoin(xs: seq<string>)
    requires |xs| > 0
    requires forall k :: 0 <= k < |xs| ==> ',' !in xs[k]
    ensures SplitFields(Join(xs)) == xs
    decreases |xs|
  {
    var x, rest := xs[0], xs[1..];
    if |xs| == 1 {
      SplitFieldsSingle(x);
      assert xs == [x];
    } else {
      assert Join(xs) == x + Separator + Join(rest);
      assert forall k :: 0 <= k < |rest| ==> rest[k] == xs[k + 1];
      SplitFieldsStep(x, Join(rest));
      SplitFieldsJoin(rest);
      HeadTail(xs);
    }
  }

  /** Splitting undoes joining for fields free of commas; the single empty
      field is the one list that reads back as no fields at all. */
  lemma SplitJoin(xs: seq<string>)
    requires forall k :: 0 <= k < |xs| ==> ',' !in xs[k]
    requires xs != [""]
    ensures Split(Join(xs)) == xs
  {
    if |xs| > 0 {
      if |xs| == 1 {
        assert Join(xs) == xs[0];
        assert xs[0] != "";
      } else {
        assert |Join(xs)| >= 2;
      }
      SplitFieldsJoin(xs);
    }
  }

  /** A join of non-empty fields that each have clean ends has clean ends
      itself, so trim() leaves it unchanged. */
  lemma JoinTrimmed(xs: seq<string>)
    requires forall k :: 0 <= k < |xs| ==> xs[k] != "" && Trimmed(xs[k])
    ensures Trim(Join(xs)) == Join(xs)
  {
    var s := Join(xs);
    if |xs| > 0 {
      var first, last := xs[0], xs[|xs| - 1];
      assert first != "" && Trimmed(first);
      assert last != "" && Trimmed(last);
      assert s[0] == first[0] by {
        assert first <= s;
      }
      assert s[|s| - 1] == last[|last| - 1] by {
        var tail := s[|s| - |last|..];
        assert tail == last;
        assert s[|s| - 1] == tail[|tail| - 1];
      }
      assert Trimmed(s);
    }
  }
}
