/** Models of the functions of Go's standard `strings` package that the codec
    layer calls: Split, Contains and Fields for parsing the encoder listing,
    and Join for assembling argument strings. A Go string is modelled as a
    sequence of Unicode characters; UTF-8 decoding of raw bytes is not
    modelled. */
module GoStrings {

  // ---------------------------------------------------------------- Join

  /** `strings.Join(elems, sep)`: the elements, in order, with `sep` between
      each pair of neighbours; no elements give the empty string. */
  function Join(elems: seq<string>, sep: string): string
  {
    if |elems| == 0 then ""
    else if |elems| == 1 then elems[0]
    else elems[0] + sep + Join(elems[1..], sep)
  }

  /** A join holds every element and one separator between each pair of
      neighbours: appending an element appends a separator and that element;
      its length is theirs combined, it starts with the first element and
      ends with the last. */
  lemma {:induction false} JoinShape(elems: seq<string>, sep: string)
    requires |elems| > 0
    ensures |elems| > 1 ==>
      Join(elems, sep) == Join(elems[..|elems| - 1], sep) + sep + elems[|elems| - 1]
    ensures |Join(elems, sep)| == |Concat(elems)| + (|elems| - 1) * |sep|
    ensures Join(elems, sep)[..|elems[0]|] == elems[0]
    ensures |elems[|elems| - 1]| <= |Join(elems, sep)|
    ensures Join(elems, sep)[|Join(elems, sep)| - |elems[|elems| - 1]|..] == elems[|elems| - 1]
    decreases |elems|
  {
    if |elems| == 1 {
      assert Concat(elems) == elems[0] + Concat([]);
    } else {
      var tail := elems[1..];
      JoinShape(tail, sep);
      assert tail[|tail| - 1] == elems[|elems| - 1];
      var j := Join(tail, sep);
      assert Join(elems, sep) == elems[0] + sep + j;
      assert Concat(elems) == elems[0] + Concat(tail);
      var init := elems[..|elems| - 1];
      if |elems| == 2 {
        assert init == [elems[0]];
      } else {
        assert init[1..] == tail[..|tail| - 1];
        assert Join(init, sep) == elems[0] + sep + Join(tail[..|tail| - 1], sep);
      }
    }
  }

  // ---------------------------------------------------------------- Split

  /** Number of occurrences of `c` in `s`. */
  function Count(s: string, c: char): nat
  {
    if s == [] then 0 else (if s[0] == c then 1 else 0) + Count(s[1..], c)
  }

  /** `strings.Split(s, string(sep))` for a one-character separator: the
      pieces of `s` between the occurrences of `sep`. There is always exactly
      one more piece than there are separators (so "" gives [""]), and no
      piece contains the separator. */
  function Split(s: string, sep: char): (r: seq<string>)
    ensures |r| == Count(s, sep) + 1
    ensures forall k :: 0 <= k < |r| ==> sep !in r[k]
    decreases |s|
  {
    if s == [] then [""]
    else
      var rest := Split(s[1..], sep);
      if s[0] == sep then [""] + rest
      else [[s[0]] + rest[0]] + rest[1..]
  }

  /** Joining the pieces back with the separator gives the original text. */
  lemma {:induction false} SplitThenJoin(s: string, sep: char)
    ensures Join(Split(s, sep), [sep]) == s
    decreases |s|
  {
    if s != [] {
      var rest := Split(s[1..], sep);
      SplitThenJoin(s[1..], sep);
      assert s == [s[0]] + s[1..];
      if s[0] != sep && |rest| > 1 {
        assert rest == [rest[0]] + rest[1..];
        assert Join(rest, [sep]) == rest[0] + [sep] + Join(rest[1..], [sep]);
      }
    }
  }

  /** Text without the separator is a single piece. */
  lemma {:induction false} SplitNoSeparator(s: string, sep: char)
    requires sep !in s
    ensures Split(s, sep) == [s]
    decreases |s|
  {
    if s != [] {
      assert sep !in s[1..];
      SplitNoSeparator(s[1..], sep);
      assert s == [s[0]] + s[1..];
    }
  }

  /** Splitting text that has a separator at one point splits each side
      separately: the pieces come out in the order of the text. */
  lemma {:induction false} SplitAtSeparator(a: string, b: string, sep: char)
    ensures Split(a + [sep] + b, sep) == Split(a, sep) + Split(b, sep)
    decreases |a|
  {
    var s := a + [sep] + b;
    if a == [] {
      assert s[1..] == b;
    } else {
      assert s[1..] == a[1..] + [sep] + b;
      SplitAtSeparator(a[1..], b, sep);
      var left := Split(a[1..], sep);
      if a[0] != sep {
        assert (left + Split(b, sep))[1..] == left[1..] + Split(b, sep);
      }
    }
  }

  /** Pieces free of the separator are recovered by splitting their join. */
  lemma {:induction false} JoinThenSplit(pieces: seq<string>, sep: char)
    requires |pieces| > 0
    requires forall k :: 0 <= k < |pieces| ==> sep !in pieces[k]
    ensures Split(Join(pieces, [sep]), sep) == pieces
    decreases |pieces|
  {
    SplitNoSeparator(pieces[0], sep);
    if |pieces| > 1 {
      JoinThenSplit(pieces[1..], sep);
      SplitAtSeparator(pieces[0], Join(pieces[1..], [sep]), sep);
      assert pieces == [pieces[0]] + pieces[1..];
    }
  }

  // ---------------------------------------------------------------- Contains

  /** `sub` occurs in `s` starting at index `i`. */
  predicate OccursAt(s: string, sub: string, i: int)
  {
    0 <= i && i + |sub| <= |s| && s[i..i + |sub|] == sub
  }

  /** An occurrence in the tail of `s` is an occurrence in `s` one index
      later, and every occurrence past index 0 arises this way. */
  lemma ShiftOccurrence(s: string, sub: string)
    requires s != []
    ensures (exists i :: OccursAt(s[1..], sub, i)) <==> exists i :: i > 0 && OccursAt(s, sub, i)
  {
    if i :| OccursAt(s[1..], sub, i) {
      assert s[i + 1..i + 1 + |sub|] == s[1..][i..i + |sub|];
      assert OccursAt(s, sub, i + 1);
    }
    if i :| i > 0 && OccursAt(s, sub, i) {
      assert s[1..][i - 1..i - 1 + |sub|] == s[i..i + |sub|];
      assert OccursAt(s[1..], sub, i - 1);
    }
  }

  /** `strings.Contains(s, sub)`: `sub` is a prefix of `s` or of one of its
      suffixes, that is, it occurs at some index of `s`. */
  function Contains(s: string, sub: string): (r: bool)
    ensures r <==> exists i :: OccursAt(s, sub, i)
    decreases |s|
  {
    if |sub| <= |s| && s[..|sub|] == sub then
      assert OccursAt(s, sub, 0);
      true
    else if s == [] then
      false
    else
      ShiftOccurrence(s, sub);
      Contains(s[1..], sub)
  }

  /** A non-empty `sub` cannot occur in text lacking its first character. */
  lemma MissingFirstCharacter(s: string, sub: string)
    requires |sub| > 0 && forall k :: 0 <= k < |s| ==> s[k] != sub[0]
    ensures !Contains(s, sub)
  {
    forall i | 0 <= i <= |s| - |sub| ensures !OccursAt(s, sub, i) {
      assert s[i..i + |sub|][0] == s[i];
    }
  }

  // ---------------------------------------------------------------- Fields

  /** The white space of Go's `unicode.IsSpace`, on which `strings.Fields`
      splits: TAB, LF, VT, FF, CR, SPACE, NEL, NBSP and the other characters
      of Unicode's White_Space property. */
  predicate IsSpace(c: char)
  {
    c == '\t' || c == '\n' || c == '\U{0B}' || c == '\U{0C}' || c == '\r' || c == ' ' ||
    c == '\U{85}' || c == '\U{A0}' || c == '\U{1680}' ||
    ('\U{2000}' <= c <= '\U{200A}') ||
    c == '\U{2028}' || c == '\U{2029}' || c == '\U{202F}' || c == '\U{205F}' || c == '\U{3000}'
  }

  /** A field: non-empty and free of white space. */
  predicate IsWord(w: string)
  {
    |w| > 0 && forall k :: 0 <= k < |w| ==> !IsSpace(w[k])
  }

  /** All characters of `s` are white space. */
  predicate AllSpace(s: string)
  {
    forall k :: 0 <= k < |s| ==> IsSpace(s[k])
  }

  /** The length of the run of non-space characters that starts `s`. */
  function WordLength(s: string): (n: nat)
    ensures n <= |s|
    ensures forall k :: 0 <= k < n ==> !IsSpace(s[k])
    ensures n < |s| ==> IsSpace(s[n])
    decreases |s|
  {
    if s == [] || IsSpace(s[0]) then 0 else 1 + WordLength(s[1..])
  }

  /** `strings.Fields(s)`: the maximal runs of non-space characters of `s`,
      in order; white space alone gives no fields. */
  function Fields(s: string): (r: seq<string>)
    ensures forall k :: 0 <= k < |r| ==> IsWord(r[k])
    decreases |s|
  {
    if s == [] then []
    else if IsSpace(s[0]) then Fields(s[1..])
    else
      var n := WordLength(s);
      [s[..n]] + Fields(s[n..])
  }

  /** The characters of `s` that are not white space, in order. */
  function NonSpace(s: string): string
  {
    if s == [] then [] else (if IsSpace(s[0]) then [] else [s[0]]) + NonSpace(s[1..])
  }

  /** The concatenation of a sequence of strings. */
  function Concat(ws: seq<string>): string
  {
    if ws == [] then [] else ws[0] + Concat(ws[1..])
  }

  lemma {:induction false} NonSpaceAppend(a: string, b: string)
    ensures NonSpace(a + b) == NonSpace(a) + NonSpace(b)
    decreases |a|
  {
    if a == [] {
      assert a + b == b;
    } else {
      assert (a + b)[1..] == a[1..] + b;
      NonSpaceAppend(a[1..], b);
      var head := if IsSpace(a[0]) then [] else [a[0]];
      calc {
        NonSpace(a + b);
        head + NonSpace(a[1..] + b);
        head + (NonSpace(a[1..]) + NonSpace(b));
        (head + NonSpace(a[1..])) + NonSpace(b);
      }
    }
  }

  lemma {:induction false} NonSpaceOfWord(w: string)
    requires forall k :: 0 <= k < |w| ==> !IsSpace(w[k])
    ensures NonSpace(w) == w
    decreases |w|
  {
    if w != [] {
      NonSpaceOfWord(w[1..]);
      assert w == [w[0]] + w[1..];
    }
  }

  /** Fields drops exactly the white space: together they hold every other
      character of `s`, in order. */
  lemma {:induction false} FieldsKeepAllNonSpace(s: string)
    ensures Concat(Fields(s)) == NonSpace(s)
    decreases |s|
  {
    if s != [] {
      if IsSpace(s[0]) {
        FieldsKeepAllNonSpace(s[1..]);
      } else {
        var n := WordLength(s);
        FieldsKeepAllNonSpace(s[n..]);
        assert s == s[..n] + s[n..];
        NonSpaceAppend(s[..n], s[n..]);
        NonSpaceOfWord(s[..n]);
        var r := Fields(s);
        assert r[0] == s[..n] && r[1..] == Fields(s[n..]);
      }
    }
  }

  /** Text with a non-space character has at least one field. */
  lemma {:induction false} FieldsNonEmpty(s: string, i: nat)
    requires i < |s| && !IsSpace(s[i])
    ensures |Fields(s)| >= 1
    decreases |s|
  {
    if IsSpace(s[0]) {
      FieldsNonEmpty(s[1..], i - 1);
    }
  }

  /** Leading white space does not change the fields. */
  lemma {:induction false} FieldsSkipSpace(sp: string, rest: string)
    requires AllSpace(sp)
    ensures Fields(sp + rest) == Fields(rest)
    decreases |sp|
  {
    if sp == [] {
      assert sp + rest == rest;
    } else {
      assert (sp + rest)[0] == sp[0];
      assert (sp + rest)[1..] == sp[1..] + rest;
      FieldsSkipSpace(sp[1..], rest);
    }
  }

  lemma {:induction false} WordLengthOfWord(w: string, rest: string)
    requires forall k :: 0 <= k < |w| ==> !IsSpace(w[k])
    requires rest == [] || IsSpace(rest[0])
    ensures WordLength(w + rest) == |w|
    decreases |w|
  {
    if w == [] {
      assert w + rest == rest;
    } else {
      assert (w + rest)[0] == w[0];
      assert (w + rest)[1..] == w[1..] + rest;
      WordLengthOfWord(w[1..], rest);
    }
  }

  /** A word followed by the end of the text or by white space is the first
      field. */
  lemma FieldsFirstWord(w: string, rest: string)
    requires IsWord(w)
    requires rest == [] || IsSpace(rest[0])
    ensures Fields(w + rest) == [w] + Fields(rest)
  {
    var s := w + rest;
    var n := WordLength(s);
    WordLengthOfWord(w, rest);
    assert s[..n] == w && s[n..] == rest;
  }

  /** Words joined by single spaces are recovered by Fields. */
  lemma {:induction false} FieldsOfJoin(ws: seq<string>)
    requires forall k :: 0 <= k < |ws| ==> IsWord(ws[k])
    ensures Fields(Join(ws, " ")) == ws
    decreases |ws|
  {
    if |ws| == 1 {
      FieldsFirstWord(ws[0], []);
      assert ws[0] + [] == ws[0];
    } else if |ws| > 1 {
      var tail := Join(ws[1..], " ");
      FieldsFirstWord(ws[0], " " + tail);
      assert ws[0] + " " + tail == ws[0] + (" " + tail);
      FieldsSkipSpace(" ", tail);
      FieldsOfJoin(ws[1..]);
      assert ws == [ws[0]] + ws[1..];
    }
  }
}
