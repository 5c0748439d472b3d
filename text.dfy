/** The two kinds of string splitting the program relies on, with Python 2
    semantics: `s.split(sep)` on an explicit separator (used on an entry id)
    and `s.split()` / `s.strip()` on whitespace (used on archive lines). */
module Text {

  // ---------------------------------------------------------------------
  // Splitting on an explicit separator: `s.split(sep)`
  // ---------------------------------------------------------------------

  /** `s.split(sep)`: the pieces of `s` between occurrences of `sep`. Empty
      pieces are kept, so there is always one more piece than separators. */
  function Split(s: string, sep: char): (r: seq<string>)
    ensures |r| >= 1
    ensures forall i :: 0 <= i < |r| ==> sep !in r[i]
    decreases |s|
  {
    if s == [] then [""]
    else
      var rest := Split(s[1..], sep);
      if s[0] == sep then [""] + rest
      else [[s[0]] + rest[0]] + rest[1..]
  }

  /** `sep.join(fs)`: the inverse of `Split`. */
  function Join(fs: seq<string>, sep: char): string
  {
    if fs == [] then ""
    else if |fs| == 1 then fs[0]
    else fs[0] + [sep] + Join(fs[1..], sep)
  }

  /** Joining the pieces of a split restores the string. */
  lemma {:induction false} JoinSplit(s: string, sep: char)
    ensures Join(Split(s, sep), sep) == s
    decreases |s|
  {
    if s != [] {
      JoinSplit(s[1..], sep);
      var rest := Split(s[1..], sep);
      if s[0] != sep {
        if |rest| > 1 {
          assert Join(rest, sep) == rest[0] + [sep] + Join(rest[1..], sep);
          assert Join([[s[0]] + rest[0]] + rest[1..], sep)
              == ([s[0]] + rest[0]) + [sep] + Join(rest[1..], sep);
        }
      }
    }
  }

  /** Splitting a piece that holds no separator, followed by the separator, yields
      that piece first. */
  lemma {:induction false} SplitAfterPiece(f: string, sep: char, rest: string)
    requires sep !in f
    ensures Split(f + [sep] + rest, sep) == [f] + Split(rest, sep)
    decreases |f|
  {
    if f == [] {
      assert f + [sep] + rest == [sep] + rest;
      assert ([sep] + rest)[1..] == rest;
    } else {
      assert (f + [sep] + rest)[1..] == f[1..] + [sep] + rest;
      SplitAfterPiece(f[1..], sep, rest);
      assert [f[0]] + f[1..] == f;
    }
  }

  /** A piece that holds no separator splits into itself. */
  lemma {:induction false} SplitPiece(f: string, sep: char)
    requires sep !in f
    ensures Split(f, sep) == [f]
    decreases |f|
  {
    if f != [] {
      SplitPiece(f[1..], sep);
      assert [f[0]] + f[1..] == f;
    }
  }

  /** Splitting a join of separator-free pieces gives back the pieces. */
  lemma {:induction false} SplitJoin(fs: seq<string>, sep: char)
    requires |fs| >= 1
    requires forall i :: 0 <= i < |fs| ==> sep !in fs[i]
    ensures Split(Join(fs, sep), sep) == fs
    decreases |fs|
  {
    if |fs| == 1 {
      SplitPiece(fs[0], sep);
    } else {
      SplitJoin(fs[1..], sep);
      SplitAfterPiece(fs[0], sep, Join(fs[1..], sep));
      assert [fs[0]] + fs[1..] == fs;
    }
  }

  // ---------------------------------------------------------------------
  // Splitting on whitespace: `s.split()` and `s.strip()`
  // ---------------------------------------------------------------------

  /** The characters Python 2's `str.isspace` accepts: space, tab, line feed,
      carriage return, vertical tab and form feed. */
  predicate IsSpace(c: char)
  {
    c == ' ' || c == '\t' || c == '\n' || c == '\r' || c == '\U{B}' || c == '\U{C}'
  }

  /** `not s.strip()`: the string is empty once whitespace is stripped. */
  predicate IsBlank(s: string)
  {
    forall i :: 0 <= i < |s| ==> IsSpace(s[i])
  }

  /** A field of `s.split()`: non-empty and free of whitespace. */
  predicate IsToken(t: string)
  {
    t != [] && forall i :: 0 <= i < |t| ==> !IsSpace(t[i])
  }

  /** The length of the run of non-whitespace characters that starts `s`. */
  function TokenEnd(s: string): (k: nat)
    ensures k <= |s|
    ensures forall i :: 0 <= i < k ==> !IsSpace(s[i])
    ensures k < |s| ==> IsSpace(s[k])
  {
    if s == [] || IsSpace(s[0]) then 0 else 1 + TokenEnd(s[1..])
  }

  /** `s.split()`: the maximal runs of non-whitespace characters, in order.
      There are none exactly when the string is blank. */
  function Fields(s: string): (r: seq<string>)
    ensures forall i :: 0 <= i < |r| ==> IsToken(r[i])
    ensures r == [] <==> IsBlank(s)
    decreases |s|
  {
    if s == [] then []
    else if IsSpace(s[0]) then
      var rest := Fields(s[1..]);
      assert IsBlank(s[1..]) ==> IsBlank(s) by {
        if IsBlank(s[1..]) {
          forall i | 0 <= i < |s| ensures IsSpace(s[i]) {
            if i > 0 { assert s[i] == s[1..][i - 1]; }
          }
        }
      }
      rest
    else
      var k := TokenEnd(s);
      assert k >= 1 by { assert !IsSpace(s[0]); }
      [s[..k]] + Fields(s[k..])
  }

  /** A token that is followed by a whitespace character is the first field. */
  lemma {:induction false} FieldsAfterToken(t: string, c: char, rest: string)
    requires IsToken(t) && IsSpace(c)
    ensures Fields(t + [c] + rest) == [t] + Fields([c] + rest)
  {
    var s := t + [c] + rest;
    TokenEndOfToken(t, [c] + rest);
    assert s == t + ([c] + rest);
    assert s[..|t|] == t;
    assert s[|t|..] == [c] + rest;
  }

  /** A lone token is its own single field. */
  lemma TokenFields(t: string)
    requires IsToken(t)
    ensures Fields(t) == [t]
  {
    TokenEndOfToken(t, "");
    assert t + "" == t;
    assert t[..|t|] == t;
  }

  /** The token run of `t + rest` ends at `t`'s end when `rest` starts with whitespace. */
  lemma {:induction false} TokenEndOfToken(t: string, rest: string)
    requires forall i :: 0 <= i < |t| ==> !IsSpace(t[i])
    requires rest == [] || IsSpace(rest[0])
    ensures TokenEnd(t + rest) == |t|
    decreases |t|
  {
    if t == [] {
      assert t + rest == rest;
    } else {
      assert (t + rest)[1..] == t[1..] + rest;
      TokenEndOfToken(t[1..], rest);
    }
  }

  /** Leading whitespace contributes no field. */
  lemma SpaceFields(c: char, rest: string)
    requires IsSpace(c)
    ensures Fields([c] + rest) == Fields(rest)
  {
    assert ([c] + rest)[1..] == rest;
  }
}
