/**
  The JavaScript string built-ins the two views rely on, over `seq<char>`:
  `toLowerCase`, `includes`, `split`, `localeCompare` (as plain lexicographic
  order) and the name/query match both views filter with.
 */
module Strings {

  /** `toLowerCase` on one character; only the ASCII letters have a lower case here. */
  function LowerChar(c: char): (d: char)
    ensures 'A' <= c <= 'Z' ==> d as int == c as int + 32
    ensures !('A' <= c <= 'Z') ==> d == c
  {
    if 'A' <= c <= 'Z' then (c as int + 32) as char else c
  }

  /** `s.toLowerCase()`. */
  function Lower(s: string): (r: string)
    ensures |r| == |s|
    ensures forall i :: 0 <= i < |s| ==> r[i] == LowerChar(s[i])
  {
    if s == [] then [] else [LowerChar(s[0])] + Lower(s[1..])
  }

  /** Lower-casing twice is lower-casing once. */
  lemma LowerIdempotent(s: string)
    ensures Lower(Lower(s)) == Lower(s)
  {
  }

  lemma LowerAppend(a: string, b: string)
    ensures Lower(a + b) == Lower(a) + Lower(b)
  {
  }

  /** A dot is the only character that lower-cases to a dot. */
  lemma LowerKeepsDots(s: string)
    ensures '.' in Lower(s) <==> '.' in s
  {
    if '.' in s {
      var i :| 0 <= i < |s| && s[i] == '.';
      assert Lower(s)[i] == '.';
    }
  }

  // ---------------------------------------------------------------------
  // includes

  /** `q` occurs in `s` as a block of consecutive characters starting at `i`. */
  ghost predicate OccursAt(q: string, s: string, i: int)
  {
    0 <= i && i + |q| <= |s| && s[i..i + |q|] == q
  }

  /** `s.includes(q)`: is `q` a block of consecutive characters of `s`? */
  function Includes(s: string, q: string): (r: bool)
    ensures r <==> exists i :: OccursAt(q, s, i)
    decreases |s|
  {
    if |q| > |s| then false
    else if s[..|q|] == q then (assert OccursAt(q, s, 0); true)
    else
      var r := Includes(s[1..], q);
      IncludesShift(s, q);
      r
  }

  /** Occurrences in `s` other than at 0 are exactly the occurrences in `s[1..]`, shifted. */
  lemma IncludesShift(s: string, q: string)
    requires |q| <= |s| && s[..|q|] != q
    ensures (exists i :: OccursAt(q, s, i)) <==> (exists i :: OccursAt(q, s[1..], i))
  {
    if i :| OccursAt(q, s, i) {
      assert i != 0;
      assert s[1..][i - 1..i - 1 + |q|] == s[i..i + |q|];
      assert OccursAt(q, s[1..], i - 1);
    }
    if i :| OccursAt(q, s[1..], i) {
      assert s[1..][i..i + |q|] == s[i + 1..i + 1 + |q|];
      assert OccursAt(q, s, i + 1);
    }
  }

  /** The live-search test of both views: `name.toLowerCase().includes(query.toLowerCase())`. */
  function MatchesQuery(name: string, query: string): (r: bool)
    ensures r <==> exists i :: OccursAt(Lower(query), Lower(name), i)
  {
    var b := Includes(Lower(name), Lower(query));
    assert b ==> exists i :: OccursAt(Lower(query), Lower(name), i);
    assert (exists i :: OccursAt(Lower(query), Lower(name), i)) ==> b;
    b
  }

  /** The empty query matches every name. */
  lemma EmptyQueryMatches(name: string)
    ensures MatchesQuery(name, "")
  {
    assert OccursAt(Lower(""), Lower(name), 0);
  }

  /** A query that is, up to case, a block of the name matches it. */
  lemma {:induction false} BlockOfNameMatches(name: string, i: nat, j: nat)
    requires i <= j <= |name|
    ensures MatchesQuery(name, name[i..j])
  {
    assert Lower(name[i..j]) == Lower(name)[i..j] by {
      assert name == name[..i] + name[i..j] + name[j..];
      LowerAppend(name[..i] + name[i..j], name[j..]);
      LowerAppend(name[..i], name[i..j]);
    }
    assert OccursAt(Lower(name[i..j]), Lower(name), i);
  }

  /** The match ignores case on both sides. */
  lemma MatchIgnoresCase(name: string, name': string, query: string, query': string)
    requires Lower(name) == Lower(name') && Lower(query) == Lower(query')
    ensures MatchesQuery(name, query) == MatchesQuery(name', query')
  {
  }

  // ---------------------------------------------------------------------
  // split

  /** `s.split(sep)` for a one-character separator. */
  function Split(s: string, sep: char): (parts: seq<string>)
    ensures |parts| >= 1
    ensures forall i :: 0 <= i < |parts| ==> sep !in parts[i]
    ensures |parts| == 1 <==> sep !in s
    decreases |s|
  {
    if s == [] then [""]
    else
      var rest := Split(s[1..], sep);
      if s[0] == sep then [""] + rest
      else [[s[0]] + rest[0]] + rest[1..]
  }

  /** `parts.join(sep)`, the inverse of `Split`. */
  function Join(parts: seq<string>, sep: char): (s: string)
  {
    if parts == [] then ""
    else if |parts| == 1 then parts[0]
    else parts[0] + [sep] + Join(parts[1..], sep)
  }

  /** `Array.prototype.pop` on a non-empty array: its last element. */
  function Last<T>(s: seq<T>): (last: T)
    requires |s| > 0
    ensures s == s[..|s| - 1] + [last]
  {
    s[|s| - 1]
  }

  /** Joining the pieces back gives the original text. */
  lemma {:induction false} JoinSplit(s: string, sep: char)
    ensures Join(Split(s, sep), sep) == s
    decreases |s|
  {
    if s != [] {
      var rest := Split(s[1..], sep);
      JoinSplit(s[1..], sep);
      if s[0] == sep {
        assert Split(s, sep) == [""] + rest;
        assert Join([""] + rest, sep) == "" + [sep] + Join(rest, sep);
        assert s == [s[0]] + s[1..];
      } else {
        assert Split(s, sep) == [[s[0]] + rest[0]] + rest[1..];
        if |rest| == 1 {
          assert s == [s[0]] + s[1..];
        } else {
          assert Join(rest, sep) == rest[0] + [sep] + Join(rest[1..], sep);
          assert s == [s[0]] + s[1..];
        }
      }
    }
  }

  /** Splitting a text `a + [sep] + b` whose first piece `a` holds no separator. */
  lemma {:induction false} SplitAfterPiece(a: string, b: string, sep: char)
    requires sep !in a
    ensures Split(a + [sep] + b, sep) == [a] + Split(b, sep)
    decreases |a|
  {
    if a == [] {
      assert (a + [sep] + b)[1..] == b;
    } else {
      assert (a + [sep] + b)[1..] == a[1..] + [sep] + b;
      SplitAfterPiece(a[1..], b, sep);
      assert [a[0]] + a[1..] == a;
    }
  }

  /** Splitting pieces that hold no separator after joining them gives the pieces back. */
  lemma {:induction false} SplitJoin(parts: seq<string>, sep: char)
    requires |parts| >= 1
    requires forall i :: 0 <= i < |parts| ==> sep !in parts[i]
    ensures Split(Join(parts, sep), sep) == parts
    decreases |parts|
  {
    if |parts| == 1 {
      var p := parts[0];
      var ps := Split(p, sep);
      assert |ps| == 1;
      JoinSplit(p, sep);
      assert Join(ps, sep) == ps[0];
    } else {
      SplitJoin(parts[1..], sep);
      SplitAfterPiece(parts[0], Join(parts[1..], sep), sep);
      assert [parts[0]] + parts[1..] == parts;
    }
  }

  /** `r` is the text of `s` after its last `sep`, or all of `s` when there is none. */
  ghost predicate IsLastPiece(r: string, s: string, sep: char)
  {
    && |r| <= |s| && r == s[|s| - |r|..] && sep !in r
    && (|r| < |s| ==> s[|s| - |r| - 1] == sep)
  }

  /** The last piece of `s.split(sep)` is the text after the last separator. */
  lemma {:induction false} LastPiece(s: string, sep: char)
    ensures IsLastPiece(Last(Split(s, sep)), s, sep)
    decreases |s|
  {
    if s != [] {
      LastPiece(s[1..], sep);
      LastPieceStep(s, sep, Split(s[1..], sep));
    }
  }

  /** There is only one text after the last separator. */
  lemma LastPieceUnique(r: string, r': string, s: string, sep: char)
    requires IsLastPiece(r, s, sep) && IsLastPiece(r', s, sep)
    ensures r == r'
  {
  }

  /** One character in front of `s[1..]` either keeps its last piece or extends it. */
  lemma LastPieceStep(s: string, sep: char, rest: seq<string>)
    requires s != [] && rest == Split(s[1..], sep)
    requires IsLastPiece(Last(rest), s[1..], sep)
    ensures IsLastPiece(Last(Split(s, sep)), s, sep)
  {
    var t, lt := s[1..], Last(rest);
    assert s[|s| - |lt|..] == lt;
    if s[0] == sep {
      assert Last(Split(s, sep)) == lt;
    } else if |rest| == 1 {
      assert lt == t;
      assert Last(Split(s, sep)) == s;
    } else {
      assert Last(Split(s, sep)) == lt;
      assert |lt| < |t|;
      assert s[|s| - |lt| - 1] == t[|t| - |lt| - 1];
    }
  }

  /** Lower-casing each piece. */
  function LowerEach(parts: seq<string>): (r: seq<string>)
    ensures |r| == |parts|
    ensures forall i :: 0 <= i < |parts| ==> r[i] == Lower(parts[i])
  {
    if parts == [] then [] else [Lower(parts[0])] + LowerEach(parts[1..])
  }

  /** Splitting at dots commutes with lower-casing. */
  lemma {:induction false} SplitLower(s: string)
    ensures Split(Lower(s), '.') == LowerEach(Split(s, '.'))
    decreases |s|
  {
    if s != [] {
      assert Lower(s)[1..] == Lower(s[1..]);
      SplitLower(s[1..]);
      var rest := Split(s[1..], '.');
      if s[0] != '.' {
        assert Lower([s[0]] + rest[0]) == [LowerChar(s[0])] + Lower(rest[0]);
        assert LowerEach(rest)[1..] == LowerEach(rest[1..]);
      }
    }
  }

  // ---------------------------------------------------------------------
  // comparison

  /**
    A stand-in for `a.localeCompare(b)`: plain lexicographic order on
    character codes, negative, zero or positive.
   */
  function StringCompare(a: string, b: string): (c: int)
    ensures -1 <= c <= 1
    ensures c == 0 <==> a == b
    decreases |a|
  {
    if a == [] && b == [] then 0
    else if a == [] then -1
    else if b == [] then 1
    else if a[0] < b[0] then -1
    else if a[0] > b[0] then 1
    else
      var c := StringCompare(a[1..], b[1..]);
      assert a == [a[0]] + a[1..] && b == [b[0]] + b[1..];
      c
  }

  /** Swapping the operands negates the comparison. */
  lemma {:induction false} StringCompareAntisymmetric(a: string, b: string)
    ensures StringCompare(a, b) == -StringCompare(b, a)
    decreases |a|
  {
    if a != [] && b != [] && a[0] == b[0] {
      StringCompareAntisymmetric(a[1..], b[1..]);
    }
  }

  /** "Not after" is transitive. */
  lemma {:induction false} StringCompareTransitive(a: string, b: string, c: string)
    requires StringCompare(a, b) <= 0 && StringCompare(b, c) <= 0
    ensures StringCompare(a, c) <= 0
    decreases |a|
  {
    if a != [] && b != [] && c != [] && a[0] == b[0] == c[0] {
      StringCompareTransitive(a[1..], b[1..], c[1..]);
    }
  }
}
