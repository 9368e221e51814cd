/**
 * The operations of Python's `str` that the request-ID middleware relies on:
 * `split` and `join` with a one-character separator, the substring test `p in t`,
 * `replace(pat, '')`, `strip(chars)`, ASCII `upper()` and a one-character `replace`.
 */
module Strings {

  /** `s.split(sep)`: the pieces of `s` between occurrences of `sep`, always at least one. */
  function Split(s: string, sep: char): (parts: seq<string>)
    ensures |parts| >= 1
    ensures forall i :: 0 <= i < |parts| ==> sep !in parts[i]
    decreases |s|
  {
    if s == [] then [""]
    else
      var rest := Split(s[1..], sep);
      if s[0] == sep then [""] + rest
      else [[s[0]] + rest[0]] + rest[1..]
  }

  /** `sep.join(parts)`: the parts with one separator between each two; the first part opens it. */
  function Join(parts: seq<string>, sep: char): (s: string)
    ensures |parts| >= 1 ==> parts[0] <= s
  {
    if parts == [] then ""
    else if |parts| == 1 then parts[0]
    else parts[0] + [sep] + Join(parts[1..], sep)
  }

  /** Joining the pieces of a split gives back the original string. */
  lemma {:induction false} SplitJoin(s: string, sep: char)
    ensures Join(Split(s, sep), sep) == s
    decreases |s|
  {
    if s != [] {
      var rest := Split(s[1..], sep);
      SplitJoin(s[1..], sep);
      if s[0] == sep {
        assert Split(s, sep)[1..] == rest;
      } else if |rest| == 1 {
        assert Join(Split(s, sep), sep) == [s[0]] + rest[0];
      } else {
        assert Split(s, sep)[1..] == rest[1..];
        assert Join(rest, sep) == rest[0] + [sep] + Join(rest[1..], sep);
      }
    }
  }

  /** A string without the separator splits into itself alone. */
  lemma {:induction false} SplitWithoutSeparator(s: string, sep: char)
    requires sep !in s
    ensures Split(s, sep) == [s]
    decreases |s|
  {
    if s != [] {
      SplitWithoutSeparator(s[1..], sep);
      assert [s[0]] + s[1..] == s;
    }
  }

  /** Splitting a join of separator-free pieces gives the pieces back. */
  lemma {:induction false} JoinSplit(parts: seq<string>, sep: char)
    requires |parts| >= 1 && forall i :: 0 <= i < |parts| ==> sep !in parts[i]
    ensures Split(Join(parts, sep), sep) == parts
    decreases |parts|
  {
    SplitWithoutSeparator(parts[0], sep);
    if |parts| > 1 {
      JoinSplit(parts[1..], sep);
      SplitConcat(parts[0], Join(parts[1..], sep), sep);
      assert [parts[0]] + parts[1..] == parts;
    }
  }

  /** How `Split` treats a first character: a separator opens a new empty piece, any other
      character joins the first piece of the rest. */
  lemma SplitCons(c: char, t: string, sep: char)
    ensures Split([c] + t, sep) == if c == sep then [""] + Split(t, sep)
                                   else [[c] + Split(t, sep)[0]] + Split(t, sep)[1..]
  {
    assert ([c] + t)[1..] == t;
  }

  /** The inductive step of `SplitConcat`: a first character is placed the same way on both sides. */
  lemma SplitConcatStep(c: char, a: string, b: string, sep: char)
    requires Split(a + [sep] + b, sep) == Split(a, sep) + Split(b, sep)
    ensures Split([c] + a + [sep] + b, sep) == Split([c] + a, sep) + Split(b, sep)
  {
    assert [c] + a + [sep] + b == [c] + (a + [sep] + b);
    SplitCons(c, a + [sep] + b, sep);
    SplitCons(c, a, sep);
    if c == sep {
      PrependAssoc([""], Split(a, sep), Split(b, sep));
    } else {
      JoinFirstAssoc([c], Split(a, sep), Split(b, sep));
    }
  }

  /** Concatenation of piece lists is associative; stated on its own so that the proof of
      `SplitConcatStep` stays small. */
  lemma PrependAssoc(x: seq<string>, u: seq<string>, v: seq<string>)
    ensures x + (u + v) == (x + u) + v
  {
  }

  /** Extending the first piece of `u` by `c` and then appending `v` is the same as doing it
      to `u + v`. */
  lemma JoinFirstAssoc(c: string, u: seq<string>, v: seq<string>)
    requires |u| >= 1
    ensures [c + (u + v)[0]] + (u + v)[1..] == ([c + u[0]] + u[1..]) + v
  {
    assert (u + v)[0] == u[0] && (u + v)[1..] == u[1..] + v;
  }

  /** Splitting `a + sep + b` splits `a` and `b` separately: the separator ends `a`'s last piece. */
  lemma {:induction false} SplitConcat(a: string, b: string, sep: char)
    ensures Split(a + [sep] + b, sep) == Split(a, sep) + Split(b, sep)
    decreases |a|
  {
    if a == [] {
      SplitCons(sep, b, sep);
      assert a + [sep] + b == [sep] + b;
    } else {
      SplitConcat(a[1..], b, sep);
      SplitConcatStep(a[0], a[1..], b, sep);
      assert [a[0]] + a[1..] == a;
    }
  }

  /** The number of pieces is one more than the number of separators. */
  lemma {:induction false} SplitCount(s: string, sep: char)
    ensures |Split(s, sep)| == multiset(s)[sep] + 1
    decreases |s|
  {
    if s != [] {
      SplitCount(s[1..], sep);
      assert s == [s[0]] + s[1..];
      assert multiset(s) == multiset{s[0]} + multiset(s[1..]);
    }
  }

  /** Python's `p in t`: `p` occurs in `t` as a contiguous substring. The empty string occurs in
      every string, and a string found inside `t` is never longer than `t`. */
  function Contains(t: string, p: string): (found: bool)
    ensures p == [] ==> found
    ensures found ==> |p| <= |t|
    decreases |t|
  {
    p <= t || (t != [] && Contains(t[1..], p))
  }

  /** `Contains` holds exactly when `p` starts at some position of `t`. */
  lemma {:induction false} ContainsAt(t: string, p: string)
    ensures Contains(t, p) <==> exists i :: 0 <= i <= |t| && p <= t[i..]
    decreases |t|
  {
    if t != [] {
      ContainsAt(t[1..], p);
      if exists i :: 0 <= i <= |t| && p <= t[i..] {
        var i :| 0 <= i <= |t| && p <= t[i..];
        if i > 0 {
          assert t[1..][i - 1..] == t[i..];
        }
      }
      if Contains(t[1..], p) {
        var i :| 0 <= i <= |t[1..]| && p <= t[1..][i..];
        assert t[1..][i..] == t[i + 1..];
      }
    } else {
      assert t[0..] == t;
    }
  }

  /** A string contains every string placed anywhere inside it, not only at its start. */
  lemma {:induction false} ContainsInfix(a: string, p: string, b: string)
    ensures Contains(a + p + b, p)
    decreases |a|
  {
    if a != [] {
      ContainsInfix(a[1..], p, b);
      assert (a + p + b)[1..] == a[1..] + p + b;
    } else {
      assert a + p + b == p + b;
    }
  }

  /** `s.replace(pat, '')`: the occurrences of `pat`, found left to right without overlap, removed. */
  function RemoveAll(s: string, pat: string): (r: string)
    ensures |r| <= |s|
    decreases |s|
  {
    if pat == [] || s == [] then s
    else if pat <= s then RemoveAll(s[|pat|..], pat)
    else [s[0]] + RemoveAll(s[1..], pat)
  }

  /** Removing a pattern that cannot occur (one of its characters is absent) changes nothing. */
  lemma {:induction false} RemoveAllAbsent(s: string, pat: string, c: char)
    requires c in pat && c !in s
    ensures RemoveAll(s, pat) == s
    decreases |s|
  {
    if s != [] {
      assert !(pat <= s);
      RemoveAllAbsent(s[1..], pat, c);
      assert [s[0]] + s[1..] == s;
    }
  }

  /** A character that is not part of the pattern survives its removal. */
  lemma {:induction false} RemoveAllKeeps(s: string, pat: string, c: char)
    requires c in s && c !in pat
    ensures c in RemoveAll(s, pat)
    decreases |s|
  {
    if pat != [] {
      if pat <= s {
        var k :| 0 <= k < |s| && s[k] == c;
        assert k >= |pat|;
        assert s[|pat|..][k - |pat|] == c;
        RemoveAllKeeps(s[|pat|..], pat, c);
      } else if s[0] != c {
        var k :| 0 <= k < |s| && s[k] == c;
        assert s[1..][k - 1] == c;
        RemoveAllKeeps(s[1..], pat, c);
      }
    }
  }

  /** Removing one character distributes over concatenation. */
  lemma {:induction false} RemoveCharConcat(a: string, b: string, c: char)
    ensures RemoveAll(a + b, [c]) == RemoveAll(a, [c]) + RemoveAll(b, [c])
    decreases |a|
  {
    if a != [] {
      RemoveCharConcat(a[1..], b, c);
      assert (a + b)[1..] == a[1..] + b;
    } else {
      assert a + b == b;
    }
  }

  /** Removing a character between two pieces, the second free of it, joins them. */
  lemma RemoveCharJoin(a: string, b: string, c: char)
    requires c !in b
    ensures RemoveAll(a + [c] + b, [c]) == RemoveAll(a, [c]) + b
  {
    RemoveCharConcat(a + [c], b, c);
    RemoveCharConcat(a, [c], c);
    RemoveAllAbsent(b, [c], c);
    assert [c] <= [c] && [c][1..] == [];
    assert RemoveAll([c], [c]) == [];
    assert RemoveAll(a + [c], [c]) == RemoveAll(a, [c]);
  }

  /** `s.lstrip(chars)`: the leading characters of `chars` removed. */
  function StripLeft(s: string, chars: string): (r: string)
    ensures |r| <= |s| && r == s[|s| - |r|..]
    ensures r != [] ==> r[0] !in chars
    decreases |s|
  {
    if s != [] && s[0] in chars then StripLeft(s[1..], chars) else s
  }

  /** `s.rstrip(chars)`: the trailing characters of `chars` removed. */
  function StripRight(s: string, chars: string): (r: string)
    ensures |r| <= |s| && r == s[..|r|]
    ensures r != [] ==> r[|r| - 1] !in chars
    decreases |s|
  {
    if s != [] && s[|s| - 1] in chars then StripRight(s[..|s| - 1], chars) else s
  }

  /** `s.strip(chars)`: every character of `chars` removed from both ends. */
  function Strip(s: string, chars: string): (r: string)
    ensures |r| <= |s|
    ensures r != [] ==> r[0] !in chars && r[|r| - 1] !in chars
  {
    StripRight(StripLeft(s, chars), chars)
  }

  /** What `strip` leaves is a contiguous piece of the original string. */
  lemma StripIsPiece(s: string, chars: string)
    ensures Contains(s, Strip(s, chars))
  {
    var l := StripLeft(s, chars);
    var r := StripRight(l, chars);
    var k := |s| - |l|;
    assert r == l[..|r|] && l == s[k..];
    assert r <= s[k..];
    ContainsAt(s, r);
  }

  /** A string whose ends are not strippable is left as it is. */
  lemma StripUnchanged(s: string, chars: string)
    requires s != [] && s[0] !in chars && s[|s| - 1] !in chars
    ensures Strip(s, chars) == s
  {
  }

  /** Stripping keeps every character that is not one of the stripped ones. */
  lemma {:induction false} StripKeeps(s: string, chars: string, c: char)
    requires c in s && c !in chars
    ensures c in Strip(s, chars)
  {
    StripLeftKeeps(s, chars, c);
    StripRightKeeps(StripLeft(s, chars), chars, c);
  }

  lemma {:induction false} StripLeftKeeps(s: string, chars: string, c: char)
    requires c in s && c !in chars
    ensures c in StripLeft(s, chars)
    decreases |s|
  {
    if s[0] in chars {
      var k :| 0 <= k < |s| && s[k] == c;
      assert s[1..][k - 1] == c;
      StripLeftKeeps(s[1..], chars, c);
    }
  }

  lemma {:induction false} StripRightKeeps(s: string, chars: string, c: char)
    requires c in s && c !in chars
    ensures c in StripRight(s, chars)
    decreases |s|
  {
    if s[|s| - 1] in chars {
      var k :| 0 <= k < |s| && s[k] == c;
      assert s[..|s| - 1][k] == c;
      StripRightKeeps(s[..|s| - 1], chars, c);
    }
  }

  predicate IsAsciiLower(c: char)
  {
    'a' <= c <= 'z'
  }

  /** ASCII `c.upper()`. */
  function UpperChar(c: char): (u: char)
    ensures !IsAsciiLower(u)
    ensures IsAsciiLower(c) ==> u as int == c as int - 32
    ensures !IsAsciiLower(c) ==> u == c
  {
    if IsAsciiLower(c) then (c as int - 32) as char else c
  }

  /** ASCII `c.lower()`. */
  function LowerChar(c: char): (l: char)
    ensures 'A' <= c <= 'Z' ==> IsAsciiLower(l) && UpperChar(l) == c
    ensures !('A' <= c <= 'Z') ==> l == c
  {
    if 'A' <= c <= 'Z' then (c as int + 32) as char else c
  }

  /** ASCII `s.upper()`: same length, no lower-case letter left, each character its own upper case. */
  function Upper(s: string): (r: string)
    ensures |r| == |s|
    ensures forall i :: 0 <= i < |s| ==> r[i] == UpperChar(s[i])
  {
    if s == [] then [] else [UpperChar(s[0])] + Upper(s[1..])
  }

  /** ASCII `s.lower()`. */
  function Lower(s: string): (r: string)
    ensures |r| == |s|
    ensures forall i :: 0 <= i < |s| ==> r[i] == LowerChar(s[i])
  {
    if s == [] then [] else [LowerChar(s[0])] + Lower(s[1..])
  }

  /** `s.replace(from, to)` for one-character `from` and `to`. */
  function ReplaceChar(s: string, from: char, to: char): (r: string)
    ensures |r| == |s|
    ensures forall i :: 0 <= i < |s| ==> r[i] == if s[i] == from then to else s[i]
  {
    if s == [] then [] else [if s[0] == from then to else s[0]] + ReplaceChar(s[1..], from, to)
  }
}
