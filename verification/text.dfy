/** String primitives the naming rules are built from, each the ASCII reading of
    the Python string method it stands for:
    - Lower, Upper, Title            `str.lower`, `str.upper`, `str.title`
    - Replace, Remove                `str.replace(a, b)`, `str.replace(a, '')`
    - Contains                       `needle in hay`
    - Split, Join, Concat            `s.split(c)`, `c.join(parts)`, `"".join(parts)`
    - FirstField, Basename           `s.split(c)[0]`, `os.path.basename`
 */
module Text {

  // ---------------------------------------------------------------------------
  // Characters

  predicate IsUpperChar(c: char) { 'A' <= c <= 'Z' }

  predicate IsLowerChar(c: char) { 'a' <= c <= 'z' }

  /** A cased character: the only characters `str.title` looks at. */
  predicate IsLetter(c: char) { IsUpperChar(c) || IsLowerChar(c) }

  function ToLowerChar(c: char): (r: char)
    ensures IsLetter(r) == IsLetter(c)
    ensures !IsUpperChar(r)
    ensures !IsUpperChar(c) ==> r == c
  {
    if IsUpperChar(c) then (c as int + 32) as char else c
  }

  function ToUpperChar(c: char): (r: char)
    ensures IsLetter(r) == IsLetter(c)
    ensures !IsLowerChar(r)
    ensures !IsLowerChar(c) ==> r == c
    ensures ToLowerChar(r) == ToLowerChar(c)
  {
    if IsLowerChar(c) then (c as int - 32) as char else c
  }

  // ---------------------------------------------------------------------------
  // Case mapping

  function Lower(s: string): (r: string)
    ensures |r| == |s|
    ensures forall i :: 0 <= i < |s| ==> r[i] == ToLowerChar(s[i])
  {
    seq(|s|, i requires 0 <= i < |s| => ToLowerChar(s[i]))
  }

  function Upper(s: string): (r: string)
    ensures |r| == |s|
    ensures forall i :: 0 <= i < |s| ==> r[i] == ToUpperChar(s[i])
  {
    seq(|s|, i requires 0 <= i < |s| => ToUpperChar(s[i]))
  }

  /** Whether the character just before position i of s is cased; `prev` stands
      for the character before s[0]. */
  predicate CasedBefore(s: string, i: nat, prev: bool)
    requires i < |s|
  {
    if i == 0 then prev else IsLetter(s[i - 1])
  }

  /** `str.title`, continuing a scan whose previous character was cased or not:
      a letter after a cased character is lowered, any other letter is raised,
      and everything that is not a letter is kept. */
  function TitleFrom(s: string, prev: bool): (r: string)
    ensures |r| == |s|
    ensures forall i :: 0 <= i < |s| ==>
      r[i] == if CasedBefore(s, i, prev) then ToLowerChar(s[i]) else ToUpperChar(s[i])
    decreases |s|
  {
    if |s| == 0 then ""
    else
      var c := if prev then ToLowerChar(s[0]) else ToUpperChar(s[0]);
      [c] + TitleFrom(s[1..], IsLetter(s[0]))
  }

  /** `str.title`: a letter right after a letter is lowered, every other
      letter (the first of a word) is raised, other characters are kept. */
  function Title(s: string): (r: string)
    ensures |r| == |s|
    ensures forall i :: 0 <= i < |s| ==>
      r[i] == if i > 0 && IsLetter(s[i - 1]) then ToLowerChar(s[i]) else ToUpperChar(s[i])
  {
    TitleFrom(s, false)
  }

  /** Title-casing changes letters only: characters that are not letters stay
      where they were, and the lowered text is unchanged. */
  lemma TitleKeepsText(s: string)
    ensures forall i :: 0 <= i < |s| && !IsLetter(s[i]) ==> Title(s)[i] == s[i]
    ensures Lower(Title(s)) == Lower(s)
  {
    var t := Title(s);
    forall i | 0 <= i < |s|
      ensures Lower(t)[i] == Lower(s)[i]
    {
      if CasedBefore(s, i, false) {
        assert t[i] == ToLowerChar(s[i]);
      } else {
        assert t[i] == ToUpperChar(s[i]);
      }
    }
  }

  /** Title-casing a title-cased string changes nothing. */
  lemma TitleIdempotent(s: string)
    ensures Title(Title(s)) == Title(s)
  {
    var t := Title(s);
    forall i | 0 <= i < |s|
      ensures Title(t)[i] == t[i]
    {
      if i > 0 {
        assert IsLetter(t[i - 1]) == IsLetter(s[i - 1]);
      }
      if CasedBefore(s, i, false) {
        assert t[i] == ToLowerChar(s[i]);
      } else {
        assert t[i] == ToUpperChar(s[i]);
      }
    }
  }

  // ---------------------------------------------------------------------------
  // Character substitution and deletion

  /** Every occurrence of a replaced by b. */
  function Replace(s: string, a: char, b: char): (r: string)
    ensures |r| == |s|
    ensures forall i :: 0 <= i < |s| ==> r[i] == if s[i] == a then b else s[i]
  {
    seq(|s|, i requires 0 <= i < |s| => if s[i] == a then b else s[i])
  }

  /** Replacing a character that does not occur changes nothing. */
  lemma ReplaceAbsent(s: string, a: char, b: char)
    requires forall i :: 0 <= i < |s| ==> s[i] != a
    ensures Replace(s, a, b) == s
  {
  }

  lemma ReplaceConcat(s: string, t: string, a: char, b: char)
    ensures Replace(s + t, a, b) == Replace(s, a, b) + Replace(t, a, b)
  {
  }

  /** s with every character of drop deleted, the others kept in order. */
  function Remove(s: string, drop: set<char>): (r: string)
    ensures |r| <= |s|
    decreases |s|
  {
    if |s| == 0 then ""
    else (if s[0] in drop then "" else [s[0]]) + Remove(s[1..], drop)
  }

  /** What Remove keeps: exactly the characters of s outside drop. */
  lemma {:induction false} RemoveMembers(s: string, drop: set<char>)
    ensures forall c :: c in Remove(s, drop) <==> c in s && c !in drop
    decreases |s|
  {
    if |s| > 0 {
      RemoveMembers(s[1..], drop);
      assert s == [s[0]] + s[1..];
    }
  }

  /** Deleting characters commutes with concatenation, so Remove keeps the
      relative order of what it keeps. */
  lemma {:induction false} RemoveConcat(s: string, t: string, drop: set<char>)
    ensures Remove(s + t, drop) == Remove(s, drop) + Remove(t, drop)
    decreases |s|
  {
    if |s| == 0 {
      assert s + t == t;
    } else {
      assert (s + t)[1..] == s[1..] + t;
      RemoveConcat(s[1..], t, drop);
    }
  }

  /** Deleting a character that stands between two strings. */
  lemma RemoveAround(a: string, b: string, c: char, drop: set<char>)
    requires c in drop
    ensures Remove(a + [c] + b, drop) == Remove(a, drop) + Remove(b, drop)
  {
    var h := [c];
    assert Remove(h, drop) == [] by {
      assert h[1..] == [];
    }
    RemoveConcat(a, h, drop);
    assert Remove(a + h, drop) == Remove(a, drop);
    RemoveConcat(a + h, b, drop);
  }

  /** Deleting characters that do not occur changes nothing. */
  lemma {:induction false} RemoveAbsent(s: string, drop: set<char>)
    requires forall i :: 0 <= i < |s| ==> s[i] !in drop
    ensures Remove(s, drop) == s
    decreases |s|
  {
    if |s| > 0 {
      RemoveAbsent(s[1..], drop);
    }
  }

  // ---------------------------------------------------------------------------
  // Substrings

  /** needle occurs in hay starting at position i. */
  ghost predicate OccursAt(needle: string, hay: string, i: int)
  {
    0 <= i && i + |needle| <= |hay| && hay[i..i + |needle|] == needle
  }

  /** Python's `needle in hay` on strings (the empty needle occurs everywhere). */
  predicate Contains(hay: string, needle: string)
    decreases |hay|
  {
    needle <= hay || (|hay| > 0 && Contains(hay[1..], needle))
  }

  lemma {:induction false} ContainsIff(hay: string, needle: string)
    ensures Contains(hay, needle) <==> exists i :: OccursAt(needle, hay, i)
    decreases |hay|
  {
    if needle <= hay {
      assert OccursAt(needle, hay, 0);
    } else if |hay| > 0 {
      ContainsIff(hay[1..], needle);
      if Contains(hay[1..], needle) {
        var i :| OccursAt(needle, hay[1..], i);
        assert 0 <= i && i + |needle| <= |hay| - 1;
        assert hay[1..][i..i + |needle|] == hay[i + 1..i + 1 + |needle|];
        assert OccursAt(needle, hay, i + 1);
      }
      if i :| OccursAt(needle, hay, i) {
        assert i != 0;
        assert 0 < i && i + |needle| <= |hay|;
        assert hay[1..][i - 1..i - 1 + |needle|] == hay[i..i + |needle|];
        assert OccursAt(needle, hay[1..], i - 1);
      }
    }
  }

  // ---------------------------------------------------------------------------
  // Fields

  /** `s.split(sep)`: the maximal runs between separators, always at least one
      (so "" gives [""] and a trailing separator gives a trailing ""). */
  function Split(s: string, sep: char): (r: seq<string>)
    ensures |r| >= 1
    ensures forall k :: 0 <= k < |r| ==> sep !in r[k]
    decreases |s|
  {
    if |s| == 0 then [""]
    else
      var rest := Split(s[1..], sep);
      if s[0] == sep then [""] + rest
      else [[s[0]] + rest[0]] + rest[1..]
  }

  /** `sep.join(parts)`. */
  function Join(parts: seq<string>, sep: char): string
    decreases |parts|
  {
    if |parts| == 0 then ""
    else if |parts| == 1 then parts[0]
    else parts[0] + [sep] + Join(parts[1..], sep)
  }

  /** `"".join(parts)`. */
  function Concat(parts: seq<string>): string
    decreases |parts|
  {
    if |parts| == 0 then "" else parts[0] + Concat(parts[1..])
  }

  lemma {:induction false} ConcatAppend(p: seq<string>, q: seq<string>)
    ensures Concat(p + q) == Concat(p) + Concat(q)
    decreases |p|
  {
    if |p| == 0 {
      assert p + q == q;
    } else {
      assert (p + q)[1..] == p[1..] + q;
      ConcatAppend(p[1..], q);
    }
  }

  /** Splitting and joining with the same separator gives the string back. */
  lemma {:induction false} JoinSplit(s: string, sep: char)
    ensures Join(Split(s, sep), sep) == s
    decreases |s|
  {
    if |s| > 0 {
      var rest := Split(s[1..], sep);
      JoinSplit(s[1..], sep);
      if s[0] == sep {
        assert ([""] + rest)[1..] == rest;
      } else {
        var parts := [[s[0]] + rest[0]] + rest[1..];
        if |rest| == 1 {
          assert Join(parts, sep) == [s[0]] + rest[0];
        } else {
          assert parts[1..] == rest[1..];
          assert Join(rest, sep) == rest[0] + [sep] + Join(rest[1..], sep);
        }
      }
    }
  }

  /** Splitting a string with a known first character. */
  lemma SplitCons(c: char, t: string, sep: char)
    ensures var rest := Split(t, sep);
      Split([c] + t, sep) == if c == sep then [""] + rest else [[c] + rest[0]] + rest[1..]
  {
    var s := [c] + t;
    assert s[0] == c && s[1..] == t;
  }

  /** The field list of c + t, written in terms of the fields of t, commutes
      with appending further fields. */
  lemma ConsFieldsAppend(c: char, ra: seq<string>, rb: seq<string>, sep: char)
    requires |ra| >= 1
    ensures var rest := ra + rb;
      (if c == sep then [""] + rest else [[c] + rest[0]] + rest[1..])
        == (if c == sep then [""] + ra else [[c] + ra[0]] + ra[1..]) + rb
  {
    var rest := ra + rb;
    if c != sep {
      assert rest[0] == ra[0];
      assert rest[1..] == ra[1..] + rb;
    }
  }

  /** A separator in the middle splits into the fields of both sides. */
  lemma {:induction false} SplitAround(a: string, b: string, sep: char)
    ensures Split(a + [sep] + b, sep) == Split(a, sep) + Split(b, sep)
    decreases |a|
  {
    if |a| == 0 {
      assert a + [sep] + b == [sep] + b;
      SplitCons(sep, b, sep);
    } else {
      var t := a[1..] + [sep] + b;
      assert a + [sep] + b == [a[0]] + t;
      assert a == [a[0]] + a[1..];
      SplitAround(a[1..], b, sep);
      SplitCons(a[0], t, sep);
      SplitCons(a[0], a[1..], sep);
      ConsFieldsAppend(a[0], Split(a[1..], sep), Split(b, sep), sep);
    }
  }

  /** Deleting two separators from x c y c z, none of whose parts hold a
      dropped character, leaves x y z. */
  lemma RemoveSeparators(x: string, y: string, z: string, c: char, drop: set<char>)
    requires c in drop
    requires forall i :: 0 <= i < |x| ==> x[i] !in drop
    requires forall i :: 0 <= i < |y| ==> y[i] !in drop
    requires forall i :: 0 <= i < |z| ==> z[i] !in drop
    ensures Remove(x + [c] + y + [c] + z, drop) == x + y + z
  {
    RemoveAbsent(x, drop);
    RemoveAbsent(y, drop);
    RemoveAbsent(z, drop);
    RemoveAround(x, y, c, drop);
    RemoveAround(x + [c] + y, z, c, drop);
  }

  /** A string without the separator is a single field. */
  lemma {:induction false} SplitNoSeparator(s: string, sep: char)
    requires sep !in s
    ensures Split(s, sep) == [s]
    decreases |s|
  {
    if |s| > 0 {
      assert sep !in s[1..];
      SplitNoSeparator(s[1..], sep);
      assert [s[0]] + s[1..] == s;
    }
  }

  /** Joining fields that hold no separator and splitting again gives the
      fields back. */
  lemma {:induction false} SplitJoin(parts: seq<string>, sep: char)
    requires |parts| >= 1
    requires forall k :: 0 <= k < |parts| ==> sep !in parts[k]
    ensures Split(Join(parts, sep), sep) == parts
    decreases |parts|
  {
    SplitNoSeparator(parts[0], sep);
    if |parts| > 1 {
      SplitJoin(parts[1..], sep);
      SplitAround(parts[0], Join(parts[1..], sep), sep);
      assert [parts[0]] + parts[1..] == parts;
    }
  }

  /** Gluing the fields together without separators deletes the separator. */
  lemma {:induction false} ConcatSplit(s: string, sep: char)
    ensures Concat(Split(s, sep)) == Remove(s, {sep})
    decreases |s|
  {
    if |s| > 0 {
      ConcatSplit(s[1..], sep);
      var rest := Split(s[1..], sep);
      if s[0] == sep {
        assert ([""] + rest)[1..] == rest;
      } else {
        var parts := [[s[0]] + rest[0]] + rest[1..];
        assert parts[1..] == rest[1..];
        assert Concat(rest) == rest[0] + Concat(rest[1..]);
      }
    }
  }

  /** `s.split(sep)[0]`: the text before the first separator. */
  function FirstField(s: string, sep: char): string
  {
    Split(s, sep)[0]
  }

  /** The first field is the longest separator-free prefix of s. */
  lemma FirstFieldIsPrefix(s: string, sep: char)
    ensures FirstField(s, sep) <= s
    ensures sep !in FirstField(s, sep)
    ensures |FirstField(s, sep)| < |s| ==> s[|FirstField(s, sep)|] == sep
  {
    var parts := Split(s, sep);
    JoinSplit(s, sep);
    if |parts| > 1 {
      assert s == parts[0] + [sep] + Join(parts[1..], sep);
    }
  }

  /** `os.path.basename` on a POSIX path: the text after the last '/'. */
  function Basename(path: string): (r: string)
    ensures '/' !in r
    ensures '/' !in path ==> r == path
  {
    var parts := Split(path, '/');
    assert '/' !in path ==> parts == [path] by {
      if '/' !in path {
        SplitNoSeparator(path, '/');
      }
    }
    parts[|parts| - 1]
  }

  /** The file name of dir + "/" + name is name. */
  lemma BasenameInDirectory(dir: string, name: string)
    requires '/' !in name
    ensures Basename(dir + "/" + name) == name
  {
    SplitAround(dir, name, '/');
    SplitNoSeparator(name, '/');
  }
}
