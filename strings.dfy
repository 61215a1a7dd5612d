/** String helpers with the meaning of the JavaScript built-ins the wheel uses:
    `String.prototype.trim`, `split` with a one-character separator, `Array.prototype.join`,
    `split(/\r?\n/).map(l => l.trim()).filter(Boolean)`, and the decimal form of a
    non-negative integer and its reading back by unary `+`. */
module Strings {

  /** ECMAScript WhiteSpace and LineTerminator code points: what `trim()` strips. */
  predicate IsSpace(c: char) {
    var n := c as int;
    n == 0x09 || n == 0x0A || n == 0x0B || n == 0x0C || n == 0x0D || n == 0x20
    || n == 0xA0 || n == 0x1680 || (0x2000 <= n <= 0x200A) || n == 0x2028 || n == 0x2029
    || n == 0x202F || n == 0x205F || n == 0x3000 || n == 0xFEFF
  }

  predicate AllSpace(s: string) {
    forall i :: 0 <= i < |s| ==> IsSpace(s[i])
  }

  /** No whitespace at either end: what `trim()` leaves. */
  predicate IsTrimmed(s: string) {
    s == "" || (!IsSpace(s[0]) && !IsSpace(s[|s| - 1]))
  }

  /** Drops the leading whitespace. */
  function TrimStart(s: string): string {
    if s != [] && IsSpace(s[0]) then TrimStart(s[1..]) else s
  }

  /** Drops the trailing whitespace. */
  function TrimEnd(s: string): string {
    if s != [] && IsSpace(s[|s| - 1]) then TrimEnd(s[..|s| - 1]) else s
  }

  /** What TrimStart keeps is a suffix that does not start with a space, and what it drops
      is all space. */
  lemma {:induction false} TrimStartShape(s: string)
    ensures var r := TrimStart(s);
            |r| <= |s| && r == s[|s| - |r|..] && AllSpace(s[..|s| - |r|]) && (r == "" || !IsSpace(r[0]))
    decreases |s|
  {
    if s != [] && IsSpace(s[0]) {
      TrimStartShape(s[1..]);
      var r := TrimStart(s);
      assert s[1..][..|s| - 1 - |r|] == s[1..|s| - |r|];
    }
  }

  /** What TrimEnd keeps is a prefix that does not end with a space, and what it drops is
      all space. */
  lemma {:induction false} TrimEndShape(s: string)
    ensures var r := TrimEnd(s);
            |r| <= |s| && r == s[..|r|] && AllSpace(s[|r|..]) && (r == "" || !IsSpace(r[|r| - 1]))
    decreases |s|
  {
    if s != [] && IsSpace(s[|s| - 1]) {
      var s' := s[..|s| - 1];
      TrimEndShape(s');
      var r := TrimEnd(s);
      assert s[|r|..] == s'[|r|..] + [s[|s| - 1]];
    }
  }

  /** `s.trim()` */
  function Trim(s: string): (r: string)
    ensures IsTrimmed(r)
    ensures |r| <= |s|
  {
    var a := TrimStart(s);
    TrimStartShape(s);
    var r := TrimEnd(a);
    TrimEndShape(a);
    assert r != "" ==> r[0] == a[0];
    r
  }

  lemma TrimOfTrimmed(s: string)
    requires IsTrimmed(s)
    ensures Trim(s) == s
  {
  }

  /** Leading whitespace never changes what `trim()` returns. */
  lemma {:induction false} TrimStartPadded(p: string, z: string)
    requires AllSpace(p)
    ensures TrimStart(p + z) == TrimStart(z)
    decreases |p|
  {
    if p != [] {
      assert (p + z)[0] == p[0];
      assert (p + z)[1..] == p[1..] + z;
      TrimStartPadded(p[1..], z);
    } else {
      assert p + z == z;
    }
  }

  lemma {:induction false} TrimEndPadded(z: string, q: string)
    requires AllSpace(q)
    ensures TrimEnd(z + q) == TrimEnd(z)
    decreases |q|
  {
    if q != [] {
      var n := |z + q|;
      assert (z + q)[n - 1] == q[|q| - 1];
      assert (z + q)[..n - 1] == z + q[..|q| - 1];
      TrimEndPadded(z, q[..|q| - 1]);
    } else {
      assert z + q == z;
    }
  }

  lemma TrimPaddedStart(p: string, z: string)
    requires AllSpace(p)
    ensures Trim(p + z) == Trim(z)
  {
    TrimStartPadded(p, z);
  }

  lemma {:induction false} TrimStartAllSpace(q: string)
    requires AllSpace(q)
    ensures TrimStart(q) == ""
    decreases |q|
  {
    if q != [] {
      TrimStartAllSpace(q[1..]);
    }
  }

  /** Trailing whitespace never changes what `trim()` returns. */
  lemma {:induction false} TrimPaddedEnd(z: string, q: string)
    requires AllSpace(q)
    ensures Trim(z + q) == Trim(z)
    decreases |z|
  {
    if z == [] {
      assert z + q == q;
      TrimStartAllSpace(q);
      TrimEndShape("");
    } else if IsSpace(z[0]) {
      assert (z + q)[0] == z[0];
      assert (z + q)[1..] == z[1..] + q;
      TrimPaddedEnd(z[1..], q);
    } else {
      assert (z + q)[0] == z[0];
      assert TrimStart(z + q) == z + q;
      TrimEndPadded(z, q);
    }
  }

  /** A string holding a non-space character does not trim to the empty string. */
  lemma TrimKeepsNonSpace(s: string, i: nat)
    requires i < |s| && !IsSpace(s[i])
    ensures Trim(s) != ""
  {
    var a := TrimStart(s);
    TrimStartShape(s);
    assert forall k :: 0 <= k < |s| - |a| ==> s[..|s| - |a|][k] == s[k];
    assert a[i - (|s| - |a|)] == s[i];
    var r := TrimEnd(a);
    TrimEndShape(a);
    assert forall k :: |r| <= k < |a| ==> a[|r|..][k - |r|] == a[k];
  }

  /** Trims every element, as `.map(t => t.trim())`. */
  function TrimAll(xs: seq<string>): (r: seq<string>)
    ensures |r| == |xs|
    ensures forall k :: 0 <= k < |xs| ==> r[k] == Trim(xs[k])
  {
    seq(|xs|, k requires 0 <= k < |xs| => Trim(xs[k]))
  }

  /** Trims every element and drops the empty ones, as `.map(l => l.trim()).filter(Boolean)`. */
  function TrimFilter(xs: seq<string>): (r: seq<string>)
    ensures |r| <= |xs|
    ensures forall k :: 0 <= k < |r| ==> r[k] != "" && IsTrimmed(r[k])
  {
    if xs == [] then []
    else
      var t := Trim(xs[0]);
      (if t == "" then [] else [t]) + TrimFilter(xs[1..])
  }

  /** Lists whose elements trim to the same strings are filtered alike. */
  lemma {:induction false} TrimFilterPointwise(xs: seq<string>, ys: seq<string>)
    requires |xs| == |ys| && forall k :: 0 <= k < |xs| ==> Trim(xs[k]) == Trim(ys[k])
    ensures TrimFilter(xs) == TrimFilter(ys)
  {
    if xs != [] {
      TrimFilterPointwise(xs[1..], ys[1..]);
    }
  }

  /** When no element trims to empty, the filter keeps all of them. */
  lemma {:induction false} TrimFilterKeepsAll(xs: seq<string>)
    requires forall k :: 0 <= k < |xs| ==> Trim(xs[k]) != ""
    ensures TrimFilter(xs) == TrimAll(xs)
  {
    if xs != [] {
      TrimFilterKeepsAll(xs[1..]);
      assert TrimAll(xs) == [Trim(xs[0])] + TrimAll(xs[1..]);
    }
  }

  /** Filtering two lists one after the other is filtering their concatenation. */
  lemma {:induction false} TrimFilterConcat(xs: seq<string>, ys: seq<string>)
    ensures TrimFilter(xs + ys) == TrimFilter(xs) + TrimFilter(ys)
  {
    if xs != [] {
      assert (xs + ys)[0] == xs[0];
      assert (xs + ys)[1..] == xs[1..] + ys;
      TrimFilterConcat(xs[1..], ys);
    } else {
      assert xs + ys == ys;
    }
  }

  /** One more element is kept, trimmed, exactly when it is not blank. */
  lemma TrimFilterStep(xs: seq<string>, x: string)
    ensures TrimFilter(xs + [x]) == TrimFilter(xs) + (if Trim(x) == "" then [] else [Trim(x)])
  {
    TrimFilterConcat(xs, [x]);
    assert [x][1..] == [];
  }

  /** The positions from `from` on whose elements are not blank, in increasing order. */
  function NonBlankFrom(xs: seq<string>, from: nat): seq<nat>
    requires from <= |xs|
    decreases |xs| - from
  {
    if from == |xs| then []
    else (if Trim(xs[from]) == "" then [] else [from]) + NonBlankFrom(xs, from + 1)
  }

  /** What the filter keeps of `xs[from..]`: the trimmed non-blank elements, each once and in
      order; the k-th kept string comes from position idx[k], the positions increase, and a
      position is listed if and only if its element is not blank. */
  lemma {:induction false} TrimFilterSpec(xs: seq<string>, from: nat)
    requires from <= |xs|
    ensures var r := TrimFilter(xs[from..]);
            var idx := NonBlankFrom(xs, from);
            && |idx| == |r|
            && (forall k :: 0 <= k < |idx| ==> from <= idx[k] < |xs| && r[k] == Trim(xs[idx[k]]))
            && (forall k, l :: 0 <= k < l < |idx| ==> idx[k] < idx[l])
            && (forall i :: from <= i < |xs| ==> (Trim(xs[i]) != "" <==> i in idx))
    decreases |xs| - from
  {
    if from < |xs| {
      TrimFilterSpec(xs, from + 1);
      assert xs[from..][1..] == xs[from + 1..];
      assert xs[from..][0] == xs[from];
      var idx := NonBlankFrom(xs, from);
      var rest := NonBlankFrom(xs, from + 1);
      assert from !in rest;
      forall i | from <= i < |xs|
        ensures Trim(xs[i]) != "" <==> i in idx
      {
        assert i in idx <==> (i == from && Trim(xs[from]) != "") || i in rest;
      }
    }
  }

  /* ---------------- split / join ---------------- */

  function IndexOf(s: string, c: char): (i: nat)
    requires c in s
    ensures i < |s| && s[i] == c && c !in s[..i]
  {
    if s[0] == c then 0 else 1 + IndexOf(s[1..], c)
  }

  /** `s.split(c)` for a one-character separator: the pieces between separators, in order,
      always at least one of them, none holding the separator. */
  function Split(s: string, c: char): (r: seq<string>)
    ensures |r| >= 1
    ensures forall k :: 0 <= k < |r| ==> c !in r[k]
    decreases |s|
  {
    if c !in s then [s]
    else
      var i := IndexOf(s, c);
      [s[..i]] + Split(s[i + 1..], c)
  }

  /** `xs.join(c)` */
  function Join(xs: seq<string>, c: char): string
  {
    if xs == [] then "" else if |xs| == 1 then xs[0] else xs[0] + [c] + Join(xs[1..], c)
  }

  /** Splitting undoes joining, when no piece holds the separator. */
  lemma {:induction false} SplitJoin(xs: seq<string>, c: char)
    requires xs != [] && forall k :: 0 <= k < |xs| ==> c !in xs[k]
    ensures Split(Join(xs, c), c) == xs
  {
    if |xs| > 1 {
      var s := Join(xs, c);
      var x := xs[0];
      assert s == x + ([c] + Join(xs[1..], c));
      SplitAfterFirst(x, Join(xs[1..], c), c);
      SplitJoin(xs[1..], c);
    }
  }

  /** Joining undoes splitting. */
  lemma {:induction false} JoinSplit(s: string, c: char)
    ensures Join(Split(s, c), c) == s
    decreases |s|
  {
    if c in s {
      var i := IndexOf(s, c);
      var head, rest := s[..i], s[i + 1..];
      assert s == head + [c] + rest;
      SplitAfterFirst(head, rest, c);
      var pieces := Split(rest, c);
      assert ([head] + pieces)[1..] == pieces;
      JoinSplit(rest, c);
    }
  }

  /** The first occurrence is where the separator stands with none before it. */
  lemma IndexOfAt(s: string, c: char, j: nat)
    requires j < |s| && s[j] == c && c !in s[..j]
    ensures IndexOf(s, c) == j
  {
    var i := IndexOf(s, c);
    assert forall k :: 0 <= k < j ==> s[..j][k] == s[k];
    assert forall k :: 0 <= k < i ==> s[..i][k] == s[k];
  }

  lemma NotInConcat(x: string, y: string, c: char)
    requires c !in x && c !in y
    ensures c !in x + y
  {
    var s := x + y;
    forall k | 0 <= k < |s|
      ensures s[k] != c
    {
      if k < |x| { assert s[k] == x[k]; } else { assert s[k] == y[k - |x|]; }
    }
  }

  /** Text before the first separator is the first piece. */
  lemma SplitAfterFirst(x: string, y: string, c: char)
    requires c !in x
    ensures Split(x + [c] + y, c) == [x] + Split(y, c)
  {
    var s := x + [c] + y;
    assert s[..|x|] == x;
    IndexOfAt(s, c, |x|);
    assert s[|x| + 1..] == y;
  }

  /** A separator-free prefix joins the first piece. */
  lemma SplitPrefixed(p: string, y: string, c: char)
    requires c !in p
    ensures var r := Split(y, c); Split(p + y, c) == [p + r[0]] + r[1..]
  {
    if c in y {
      var j := IndexOf(y, c);
      var head, rest := y[..j], y[j + 1..];
      assert y == head + [c] + rest;
      assert p + y == (p + head) + [c] + rest;
      NotInConcat(p, head, c);
      SplitAfterFirst(head, rest, c);
      SplitAfterFirst(p + head, rest, c);
    } else {
      NotInConcat(p, y, c);
    }
  }

  /** A separator-free suffix joins the last piece. */
  lemma {:induction false} SplitSuffixed(y: string, q: string, c: char)
    requires c !in q
    ensures var r := Split(y, c); Split(y + q, c) == r[..|r| - 1] + [r[|r| - 1] + q]
    decreases |y|
  {
    var s := y + q;
    if c in y {
      var j := IndexOf(y, c);
      assert s[..j] == y[..j];
      IndexOfAt(s, c, j);
      assert s[j + 1..] == y[j + 1..] + q;
      SplitSuffixed(y[j + 1..], q, c);
      var r' := Split(y[j + 1..], c);
      assert Split(y, c) == [y[..j]] + r';
      assert Split(s, c) == [y[..j]] + Split(y[j + 1..] + q, c);
    } else {
      NotInConcat(y, q, c);
    }
  }

  lemma TrimAllPointwise(xs: seq<string>, ys: seq<string>)
    requires |xs| == |ys| && forall k :: 0 <= k < |xs| ==> Trim(xs[k]) == Trim(ys[k])
    ensures TrimAll(xs) == TrimAll(ys)
  {
  }

  lemma SpacesHoldNoSeparator(p: string, c: char)
    requires AllSpace(p) && !IsSpace(c)
    ensures c !in p
  {
  }

  /** Leading whitespace only reaches the first piece, whose trim drops it. */
  lemma TrimmedPiecesPrefixed(p: string, y: string, c: char)
    requires AllSpace(p) && !IsSpace(c)
    ensures TrimAll(Split(p + y, c)) == TrimAll(Split(y, c))
  {
    SpacesHoldNoSeparator(p, c);
    var r := Split(y, c);
    var rs := Split(p + y, c);
    PrefixedPieces(p, y, c);
    TrimPaddedStart(p, r[0]);
    assert Trim(rs[0]) == Trim(r[0]);
    TrimAllPointwise(rs, r);
  }

  lemma PrefixedPieces(p: string, y: string, c: char)
    requires c !in p
    ensures var r := Split(y, c); var rs := Split(p + y, c);
      |rs| == |r| && rs[0] == p + r[0] && forall k :: 1 <= k < |r| ==> rs[k] == r[k]
  {
    SplitPrefixed(p, y, c);
  }

  /** Trailing whitespace only reaches the last piece, whose trim drops it. */
  lemma TrimmedPiecesSuffixed(y: string, q: string, c: char)
    requires AllSpace(q) && !IsSpace(c)
    ensures TrimAll(Split(y + q, c)) == TrimAll(Split(y, c))
  {
    SpacesHoldNoSeparator(q, c);
    SplitSuffixed(y, q, c);
    var r := Split(y, c);
    var rs := Split(y + q, c);
    forall k | 0 <= k < |r|
      ensures Trim(rs[k]) == Trim(r[k])
    {
      if k == |r| - 1 {
        TrimPaddedEnd(r[k], q);
      }
    }
    TrimAllPointwise(rs, r);
  }

  /** Trimming the whole string first does not change the trimmed pieces, as long as the
      separator is not whitespace: what trim drops at the ends is what the pieces' trims drop. */
  lemma SplitOfTrimmed(s: string, c: char)
    requires !IsSpace(c)
    ensures TrimAll(Split(Trim(s), c)) == TrimAll(Split(s, c))
  {
    var a := TrimStart(s);
    TrimStartShape(s);
    var t := TrimEnd(a);
    TrimEndShape(a);
    var p := s[..|s| - |a|];
    var q := a[|t|..];
    assert TrimAll(Split(s, c)) == TrimAll(Split(a, c)) by {
      assert s == p + a;
      TrimmedPiecesPrefixed(p, a, c);
    }
    assert TrimAll(Split(a, c)) == TrimAll(Split(t, c)) by {
      assert a == t + q;
      TrimmedPiecesSuffixed(t, q, c);
    }
  }

  /* ---------------- lines ---------------- */

  /** Drops one carriage return at the end. */
  function DropCr(s: string): string {
    if s != [] && s[|s| - 1] == '\r' then s[..|s| - 1] else s
  }

  /** `s.split(/\r?\n/)`: split at line feeds, and drop a carriage return standing just
      before a line feed (every piece but the last). */
  function SplitLines(s: string): (r: seq<string>)
    ensures |r| >= 1
  {
    var pieces := Split(s, '\n');
    seq(|pieces|, k requires 0 <= k < |pieces| => if k < |pieces| - 1 then DropCr(pieces[k]) else pieces[k])
  }

  /** Because `trim()` strips carriage returns anyway, the `\r?` of the line split never
      matters once the lines are trimmed. */
  lemma TrimmedLinesIgnoreCr(s: string)
    ensures TrimFilter(SplitLines(s)) == TrimFilter(Split(s, '\n'))
  {
    var pieces := Split(s, '\n');
    var lines := SplitLines(s);
    forall k | 0 <= k < |pieces|
      ensures Trim(lines[k]) == Trim(pieces[k])
    {
      var x := pieces[k];
      assert lines[k] == if k < |pieces| - 1 then DropCr(x) else x;
      if k < |pieces| - 1 && x != [] && x[|x| - 1] == '\r' {
        assert x == x[..|x| - 1] + "\r";
        TrimPaddedEnd(x[..|x| - 1], "\r");
      }
    }
    TrimFilterPointwise(lines, pieces);
  }

  /** The non-blank lines of a text, each trimmed, in order:
      `text.split(/\r?\n/).map(l => l.trim()).filter(Boolean)`. */
  function NonBlankLines(text: string): (ls: seq<string>)
    ensures forall k :: 0 <= k < |ls| ==> ls[k] != "" && IsTrimmed(ls[k])
  {
    TrimFilter(SplitLines(text))
  }

  /** The lines kept from a text are exactly its non-blank lines, trimmed, each once and in
      order: the k-th kept line is the trimmed line idx[k] of the text, and a line of the text
      is kept if and only if it is not blank. */
  lemma NonBlankLinesSpec(text: string)
    ensures var lines := Split(text, '\n');
            var ls := NonBlankLines(text);
            var idx := NonBlankFrom(lines, 0);
            && |idx| == |ls|
            && (forall k :: 0 <= k < |idx| ==> idx[k] < |lines| && ls[k] == Trim(lines[idx[k]]))
            && (forall k, l :: 0 <= k < l < |idx| ==> idx[k] < idx[l])
            && (forall i :: 0 <= i < |lines| ==> (Trim(lines[i]) != "" <==> i in idx))
  {
    var lines := Split(text, '\n');
    TrimmedLinesIgnoreCr(text);
    assert lines[0..] == lines;
    TrimFilterSpec(lines, 0);
  }

  /** The first line kept is the first non-blank line of the text, trimmed. */
  lemma NonBlankLinesFirst(text: string)
    requires NonBlankLines(text) != []
    ensures var lines := Split(text, '\n');
            exists j :: 0 <= j < |lines| && NonBlankLines(text)[0] == Trim(lines[j]) &&
              forall i :: 0 <= i < j ==> Trim(lines[i]) == ""
  {
    var lines := Split(text, '\n');
    NonBlankLinesSpec(text);
    var idx := NonBlankFrom(lines, 0);
    var j := idx[0];
    forall i | 0 <= i < j
      ensures i !in idx
    {
      forall k | 0 <= k < |idx|
        ensures idx[k] != i
      {
        if k > 0 {
          assert idx[0] < idx[k];
        }
      }
    }
  }

  /** Trimming never brings in a character. */
  lemma TrimKeepsAbsent(s: string, c: char)
    requires c !in s
    ensures c !in Trim(s)
  {
    var a := TrimStart(s);
    TrimStartShape(s);
    var r := TrimEnd(a);
    TrimEndShape(a);
    assert forall k :: 0 <= k < |r| ==> r[k] == s[|s| - |a| + k];
  }

  lemma {:induction false} TrimFilterKeepsAbsent(xs: seq<string>, c: char)
    requires forall k :: 0 <= k < |xs| ==> c !in xs[k]
    ensures forall k :: 0 <= k < |TrimFilter(xs)| ==> c !in TrimFilter(xs)[k]
  {
    if xs != [] {
      TrimKeepsAbsent(xs[0], c);
      TrimFilterKeepsAbsent(xs[1..], c);
    }
  }

  lemma TrimAllKeepsAbsent(xs: seq<string>, c: char)
    requires forall k :: 0 <= k < |xs| ==> c !in xs[k]
    ensures forall k :: 0 <= k < |xs| ==> c !in TrimAll(xs)[k]
  {
    forall k | 0 <= k < |xs|
      ensures c !in TrimAll(xs)[k]
    {
      TrimKeepsAbsent(xs[k], c);
    }
  }

  /** Splitting never brings in a character. */
  lemma {:induction false} SplitKeepsAbsent(s: string, sep: char, c: char)
    requires c !in s
    ensures forall k :: 0 <= k < |Split(s, sep)| ==> c !in Split(s, sep)[k]
    decreases |s|
  {
    if sep in s {
      var i := IndexOf(s, sep);
      assert forall j :: 0 <= j < i ==> s[..i][j] == s[j];
      var rest := s[i + 1..];
      assert forall j :: 0 <= j < |rest| ==> rest[j] in s;
      SplitKeepsAbsent(s[i + 1..], sep, c);
    }
  }

  /** No line of a text holds a line feed. */
  lemma NonBlankLinesAreLines(text: string)
    ensures forall k :: 0 <= k < |NonBlankLines(text)| ==> '\n' !in NonBlankLines(text)[k]
  {
    var pieces := Split(text, '\n');
    var lines := SplitLines(text);
    forall k | 0 <= k < |lines|
      ensures '\n' !in lines[k]
    {
      assert forall j :: 0 <= j < |lines[k]| ==> lines[k][j] == pieces[k][j];
    }
    TrimFilterKeepsAbsent(lines, '\n');
  }

  /* ---------------- decimal numbers ---------------- */

  predicate IsDigit(c: char) {
    '0' <= c <= '9'
  }

  predicate AllDigits(s: string) {
    forall i :: 0 <= i < |s| ==> IsDigit(s[i])
  }

  function DigitChar(d: nat): (c: char)
    requires d < 10
    ensures IsDigit(c)
  {
    (48 + d) as char
  }

  /** `${n}` for a non-negative integer: its decimal digits, no sign, no leading zero. */
  function Decimal(n: nat): (s: string)
    ensures s != "" && AllDigits(s)
  {
    if n < 10 then [DigitChar(n)] else Decimal(n / 10) + [DigitChar(n % 10)]
  }

  /** The value of a string of decimal digits (the empty string reads as 0, as `+""` does). */
  function DecimalValue(s: string): nat
    requires AllDigits(s)
  {
    if s == [] then 0 else DecimalValue(s[..|s| - 1]) * 10 + (s[|s| - 1] as int - 48)
  }

  /** Reading a number's decimal form gives the number back. */
  lemma {:induction false} DecimalRoundTrip(n: nat)
    ensures DecimalValue(Decimal(n)) == n
  {
    if n >= 10 {
      var s := Decimal(n);
      assert s[..|s| - 1] == Decimal(n / 10);
      DecimalRoundTrip(n / 10);
    }
  }
}
