/** Models of the Go standard-library calls the connection handler is built from:
    `bufio.Reader.ReadString`, `strings.Index`, `strings.Fields`, `strings.TrimRight`,
    `strings.TrimSpace` and the `%d` verb of `fmt`.

    A Go string is a sequence of bytes. Here it is a Dafny `string` in which every
    character stands for one byte, and whitespace is the ASCII whitespace that Go's
    `strings` package recognises for single bytes. */
module GoStrings {

  datatype Option<T> = None | Some(value: T)

  /** The ASCII whitespace bytes: '\t', '\n', '\v', '\f', '\r' (9 to 13) and ' '. */
  predicate IsSpace(c: char) {
    c == ' ' || '\t' <= c <= '\r'
  }

  ghost predicate NoSpace(s: string) {
    forall i :: 0 <= i < |s| ==> !IsSpace(s[i])
  }

  ghost predicate AllSpace(s: string) {
    forall i :: 0 <= i < |s| ==> IsSpace(s[i])
  }

  /** `strings.Index(s, string(c))`: the index of the first occurrence of `c`, if any. */
  function IndexByte(s: string, c: char): (r: Option<nat>)
    ensures r.Some? ==> r.value < |s| && s[r.value] == c && c !in s[..r.value]
    ensures r.None? ==> c !in s
  {
    if |s| == 0 then None
    else if s[0] == c then Some(0)
    else match IndexByte(s[1..], c)
      case None => None
      case Some(i) =>
        assert s[..i + 1] == [s[0]] + s[1..][..i];
        Some(i + 1)
  }

  /** `bufio.Reader.ReadString(delim)` on the stream `s` whose unread part starts at
      `pos`. On success it yields the position just after the first `delim`, so the
      line read is `s[pos..r.value]`, delimiter included. It fails (Go returns the
      partial data with `io.EOF`) when no `delim` remains. */
  function ReadString(s: string, pos: nat, delim: char): (r: Option<nat>)
    requires pos <= |s|
    ensures r.Some? ==> pos < r.value <= |s| && s[r.value - 1] == delim && delim !in s[pos..r.value - 1]
    ensures r.None? <==> delim !in s[pos..]
  {
    match IndexByte(s[pos..], delim)
    case None => None
    case Some(i) =>
      assert s[pos..pos + i] == s[pos..][..i];
      Some(pos + i + 1)
  }

  /** `strings.TrimRight(s, cutset)`: removes every trailing byte that occurs in `cutset`. */
  function TrimRight(s: string, cutset: string): (r: string)
    ensures |r| <= |s| && r == s[..|r|]
    ensures forall i :: |r| <= i < |s| ==> s[i] in cutset
    ensures r == [] || r[|r| - 1] !in cutset
    decreases |s|
  {
    if |s| > 0 && s[|s| - 1] in cutset then TrimRight(s[..|s| - 1], cutset) else s
  }

  /** Removes the leading whitespace of `s`. */
  function TrimLeftSpace(s: string): (r: string)
    ensures |r| <= |s| && r == s[|s| - |r|..]
    ensures AllSpace(s[..|s| - |r|])
    ensures r == [] || !IsSpace(r[0])
  {
    if |s| > 0 && IsSpace(s[0]) then
      var r := TrimLeftSpace(s[1..]);
      assert s[..|s| - |r|] == [s[0]] + s[1..][..|s| - 1 - |r|];
      r
    else s
  }

  /** Removes the trailing whitespace of `s`. */
  function TrimRightSpace(s: string): (r: string)
    ensures |r| <= |s| && r == s[..|r|]
    ensures AllSpace(s[|r|..])
    ensures r == [] || !IsSpace(r[|r| - 1])
  {
    if |s| > 0 && IsSpace(s[|s| - 1]) then
      var r := TrimRightSpace(s[..|s| - 1]);
      assert s[|r|..] == s[..|s| - 1][|r|..] + [s[|s| - 1]];
      r
    else s
  }

  /** `strings.TrimSpace(s)`: `s` without its leading and trailing whitespace. The result
      is the middle of `s` between two all-whitespace margins, and neither of its ends is
      whitespace. */
  function TrimSpace(s: string): (r: string)
    ensures |r| <= |s|
    ensures r == [] || (!IsSpace(r[0]) && !IsSpace(r[|r| - 1]))
    ensures exists i :: Margins(s, i, r)
  {
    var left := TrimLeftSpace(s);
    var r := TrimRightSpace(left);
    var i := |s| - |left|;
    assert s[i..i + |r|] == left[..|r|];
    assert s[i + |r|..] == left[|r|..];
    assert Margins(s, i, r);
    r
  }

  /** `s` is some whitespace, then `r` starting at index `i`, then some whitespace. */
  ghost predicate Margins(s: string, i: nat, r: string) {
    i + |r| <= |s| && s[i..i + |r|] == r && AllSpace(s[..i]) && AllSpace(s[i + |r|..])
  }

  /** The length of the run of non-whitespace bytes that starts `s`. */
  function TokenLength(s: string): (n: nat)
    requires |s| > 0 && !IsSpace(s[0])
    ensures 0 < n <= |s| && NoSpace(s[..n])
    ensures n == |s| || IsSpace(s[n])
  {
    if |s| == 1 || IsSpace(s[1]) then 1
    else
      var n := TokenLength(s[1..]);
      assert s[..n + 1] == [s[0]] + s[1..][..n];
      n + 1
  }

  /** `strings.Fields(s)`: the maximal runs of non-whitespace bytes of `s`, in order. */
  function Fields(s: string): (r: seq<string>)
    ensures forall i :: 0 <= i < |r| ==> r[i] != [] && NoSpace(r[i])
    decreases |s|
  {
    if |s| == 0 then []
    else if IsSpace(s[0]) then Fields(s[1..])
    else
      var n := TokenLength(s);
      [s[..n]] + Fields(s[n..])
  }

  /** The bytes of `s` that are not whitespace, in order. */
  function NonSpace(s: string): string {
    if |s| == 0 then [] else (if IsSpace(s[0]) then [] else [s[0]]) + NonSpace(s[1..])
  }

  /** The fields laid end to end. */
  function Concat(ws: seq<string>): string {
    if |ws| == 0 then [] else ws[0] + Concat(ws[1..])
  }

  /** The words separated by single spaces, the inverse of `Fields` on well-formed words. */
  function Unwords(ws: seq<string>): string {
    if |ws| == 0 then []
    else if |ws| == 1 then ws[0]
    else ws[0] + " " + Unwords(ws[1..])
  }

  /** Each word followed by its own run of whitespace: `ws[0] + seps[0] + ws[1] + seps[1] + ...`. */
  function Joined(ws: seq<string>, seps: seq<string>): string
    requires |seps| == |ws|
    decreases |ws|
  {
    if |ws| == 0 then [] else ws[0] + seps[0] + Joined(ws[1..], seps[1..])
  }

  /** `seps` can stand between the words `ws` and after the last one: all whitespace, and
      not empty between two words. */
  ghost predicate Separators(ws: seq<string>, seps: seq<string>) {
    |seps| == |ws| &&
    (forall k :: 0 <= k < |seps| ==> AllSpace(seps[k])) &&
    (forall k :: 0 <= k < |seps| - 1 ==> seps[k] != [])
  }

  ghost predicate IsWord(w: string) {
    w != [] && NoSpace(w)
  }

  /** The digits '0' to '9'. */
  predicate IsDigit(c: char) {
    '0' <= c <= '9'
  }

  /** What `fmt` prints for `%d` of a non-negative integer: its decimal digits, most
      significant first, with no leading zero. */
  function Decimal(n: nat): (r: string)
    ensures |r| > 0 && (forall i :: 0 <= i < |r| ==> IsDigit(r[i]))
    ensures r[0] == '0' ==> n == 0
  {
    if n < 10 then [(48 + n) as char]
    else Decimal(n / 10) + [(48 + n % 10) as char]
  }

  /** The number a string of decimal digits denotes. */
  function DigitsValue(s: string): nat
    requires forall i :: 0 <= i < |s| ==> IsDigit(s[i])
  {
    if |s| == 0 then 0
    else
      assert IsDigit(s[|s| - 1]);
      DigitsValue(s[..|s| - 1]) * 10 + (s[|s| - 1] as int - '0' as int)
  }

  // Properties of the library models

  /** `IndexByte` finds the first occurrence and no other. */
  lemma IndexByteAt(s: string, c: char, i: nat)
    requires i < |s| && s[i] == c && c !in s[..i]
    ensures IndexByte(s, c) == Some(i)
  {
    assert s[i] in s;
  }

  /** Leading whitespace never changes what `Fields` returns. */
  lemma {:induction false} FieldsSkipSpaces(sp: string, s: string)
    requires AllSpace(sp)
    ensures Fields(sp + s) == Fields(s)
    decreases |sp|
  {
    if |sp| > 0 {
      assert (sp + s)[0] == sp[0] && IsSpace(sp[0]);
      assert (sp + s)[1..] == sp[1..] + s;
      FieldsSkipSpaces(sp[1..], s);
    } else {
      assert sp + s == s;
    }
  }

  /** A word followed by whitespace or by nothing is read as one whole field. */
  lemma {:induction false} TokenLengthOfWord(w: string, rest: string)
    requires IsWord(w) && (rest == [] || IsSpace(rest[0]))
    ensures TokenLength(w + rest) == |w|
    decreases |w|
  {
    if |w| > 1 {
      assert (w + rest)[1..] == w[1..] + rest;
      TokenLengthOfWord(w[1..], rest);
    }
  }

  /** A word followed by whitespace or by nothing is the first field. */
  lemma FieldsOfWordThen(w: string, rest: string)
    requires IsWord(w) && (rest == [] || IsSpace(rest[0]))
    ensures Fields(w + rest) == [w] + Fields(rest)
  {
    TokenLengthOfWord(w, rest);
    assert (w + rest)[..|w|] == w && (w + rest)[|w|..] == rest;
  }

  /** `Fields` gives back the words of any string made of leading whitespace, then words
      separated by non-empty runs of whitespace, then trailing whitespace. Every string is
      of that form, so this fixes `Fields` on every input: each field is a maximal run of
      non-whitespace bytes. */
  lemma FieldsOfSeparated(lead: string, ws: seq<string>, seps: seq<string>)
    requires AllSpace(lead)
    requires forall k :: 0 <= k < |ws| ==> IsWord(ws[k])
    requires Separators(ws, seps)
    ensures Fields(lead + Joined(ws, seps)) == ws
  {
    FieldsSkipSpaces(lead, Joined(ws, seps));
    FieldsOfJoined(ws, seps);
  }

  lemma {:induction false} FieldsOfJoined(ws: seq<string>, seps: seq<string>)
    requires forall k :: 0 <= k < |ws| ==> IsWord(ws[k])
    requires Separators(ws, seps)
    ensures Fields(Joined(ws, seps)) == ws
    decreases |ws|
  {
    if |ws| > 0 {
      var later := Joined(ws[1..], seps[1..]);
      assert Joined(ws, seps) == ws[0] + (seps[0] + later);
      assert IsWord(ws[0]) && AllSpace(seps[0]);
      if |ws| == 1 {
        assert seps[0] + later == seps[0];
        if seps[0] != [] {
          assert IsSpace(seps[0][0]);
        }
      } else {
        assert seps[0] != [];
        assert IsSpace(seps[0][0]);
      }
      FieldsOfWordThen(ws[0], seps[0] + later);
      FieldsSkipSpaces(seps[0], later);
      forall k | 0 <= k < |ws[1..]|
        ensures IsWord(ws[1..][k])
      {
        assert ws[1..][k] == ws[k + 1];
      }
      forall k | 0 <= k < |seps[1..]|
        ensures AllSpace(seps[1..][k])
      {
        assert seps[1..][k] == seps[k + 1];
      }
      forall k | 0 <= k < |seps[1..]| - 1
        ensures seps[1..][k] != []
      {
        assert seps[1..][k] == seps[k + 1];
      }
      FieldsOfJoined(ws[1..], seps[1..]);
      assert [ws[0]] + ws[1..] == ws;
    }
  }

  /** `Fields` gives back the words that `Unwords` joined, whatever whitespace follows
      them: the partner of `Fields` as its inverse on well-formed words. */
  lemma {:induction false} FieldsOfUnwords(ws: seq<string>, tail: string)
    requires forall k :: 0 <= k < |ws| ==> IsWord(ws[k])
    requires AllSpace(tail)
    ensures Fields(Unwords(ws) + tail) == ws
    decreases |ws|
  {
    if |ws| == 0 {
      FieldsSkipSpaces(tail, []);
      assert Unwords(ws) + tail == tail + [];
    } else if |ws| == 1 {
      assert IsWord(ws[0]);
      FieldsOfWordThen(ws[0], tail);
      FieldsSkipSpaces(tail, []);
      assert tail + [] == tail;
      assert [ws[0]] == ws;
    } else {
      var r := Unwords(ws[1..]) + tail;
      assert Unwords(ws) + tail == ws[0] + (" " + r);
      assert IsWord(ws[0]);
      FieldsOfWordThen(ws[0], " " + r);
      FieldsSkipSpaces(" ", r);
      FieldsOfUnwords(ws[1..], tail);
      assert [ws[0]] + ws[1..] == ws;
    }
  }

  lemma {:induction false} NonSpaceAppend(a: string, b: string)
    ensures NonSpace(a + b) == NonSpace(a) + NonSpace(b)
    decreases |a|
  {
    if |a| > 0 {
      assert (a + b)[0] == a[0];
      assert (a + b)[1..] == a[1..] + b;
      NonSpaceAppend(a[1..], b);
    } else {
      assert a + b == b;
    }
  }

  lemma {:induction false} NonSpaceOfNoSpace(w: string)
    requires NoSpace(w)
    ensures NonSpace(w) == w
    decreases |w|
  {
    if |w| > 0 {
      NonSpaceOfNoSpace(w[1..]);
    }
  }

  /** `Fields` drops exactly the whitespace: the fields laid end to end are the
      non-whitespace bytes of `s`, in order. */
  lemma {:induction false} FieldsKeepEveryNonSpace(s: string)
    ensures Concat(Fields(s)) == NonSpace(s)
    decreases |s|
  {
    if |s| > 0 {
      if IsSpace(s[0]) {
        FieldsKeepEveryNonSpace(s[1..]);
      } else {
        var n := TokenLength(s);
        FieldsKeepEveryNonSpace(s[n..]);
        assert s == s[..n] + s[n..];
        NonSpaceAppend(s[..n], s[n..]);
        NonSpaceOfNoSpace(s[..n]);
        var f := [s[..n]] + Fields(s[n..]);
        assert f[0] == s[..n] && f[1..] == Fields(s[n..]);
      }
    }
  }

  lemma {:induction false} TrimLeftSpaceOfPadded(a: string, y: string)
    requires AllSpace(a) && (y == [] || !IsSpace(y[0]))
    ensures TrimLeftSpace(a + y) == y
    decreases |a|
  {
    if |a| > 0 {
      assert (a + y)[1..] == a[1..] + y;
      TrimLeftSpaceOfPadded(a[1..], y);
    } else {
      assert a + y == y;
    }
  }

  lemma {:induction false} TrimRightSpaceOfPadded(y: string, b: string)
    requires AllSpace(b) && (y == [] || !IsSpace(y[|y| - 1]))
    ensures TrimRightSpace(y + b) == y
    decreases |b|
  {
    if |b| > 0 {
      assert (y + b)[..|y + b| - 1] == y + b[..|b| - 1];
      TrimRightSpaceOfPadded(y, b[..|b| - 1]);
    } else {
      assert y + b == y;
    }
  }

  /** `TrimSpace` removes exactly the whitespace margins: whatever whitespace surrounds a
      string whose ends are not whitespace, trimming gives that string back. */
  lemma TrimSpaceOfPadded(a: string, x: string, b: string)
    requires AllSpace(a) && AllSpace(b)
    requires x == [] || (!IsSpace(x[0]) && !IsSpace(x[|x| - 1]))
    ensures TrimSpace(a + x + b) == x
  {
    if x == [] {
      assert a + x + b == a + b;
      TrimLeftSpaceOfPadded(a + b, []);
      assert a + b + [] == a + b;
      TrimRightSpaceOfPadded([], []);
    } else {
      assert a + x + b == a + (x + b);
      TrimLeftSpaceOfPadded(a, x + b);
      TrimRightSpaceOfPadded(x, b);
    }
  }

  /** Reading back what `%d` prints gives the number printed. */
  lemma {:induction false} DecimalRoundTrip(n: nat)
    ensures DigitsValue(Decimal(n)) == n
  {
    if n >= 10 {
      var d := Decimal(n / 10);
      var r := d + [(48 + n % 10) as char];
      assert r[..|r| - 1] == d;
      DecimalRoundTrip(n / 10);
    }
  }
}
