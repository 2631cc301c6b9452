/** The few string operations the application relies on: lower-casing, substring
    search, joining with a single space, and (as the reference inverse of that join)
    splitting on a single space. Characters are treated as ASCII. */
module Text {

  /** Lower-casing of one character, restricted to the ASCII letters A-Z. */
  function LowerChar(c: char): char {
    if 'A' <= c <= 'Z' then (c as int + 32) as char else c
  }

  /** `str.lower()` on the ASCII range. */
  function ToLower(s: string): (r: string)
    ensures |r| == |s|
    ensures forall i :: 0 <= i < |s| ==> r[i] == LowerChar(s[i])
  {
    seq(|s|, i requires 0 <= i < |s| => LowerChar(s[i]))
  }

  /** `sub` occurs in `s` beginning at index `i`. */
  predicate OccursAt(s: string, sub: string, i: nat) {
    i + |sub| <= |s| && s[i..i + |sub|] == sub
  }

  /** Lower-casing commutes with taking a slice. */
  lemma ToLowerSlice(s: string, i: nat, j: nat)
    requires i <= j <= |s|
    ensures ToLower(s)[i..j] == ToLower(s[i..j])
  {
  }

  /** An occurrence stays an occurrence when text is added on either side. */
  lemma OccursInside(pre: string, s: string, post: string, sub: string, i: nat)
    requires OccursAt(s, sub, i)
    ensures OccursAt(pre + s + post, sub, |pre| + i)
  {
    assert (pre + s + post)[|pre| + i..|pre| + i + |sub|] == s[i..i + |sub|];
  }

  /** Lower-casing distributes over concatenation. */
  lemma ToLowerConcat(a: string, b: string)
    ensures ToLower(a + b) == ToLower(a) + ToLower(b)
  {
  }

  /** Left-to-right scan for `sub` in `s`, starting at position `from`. */
  function ContainsFrom(s: string, sub: string, from: nat): (b: bool)
    decreases |s| - from
    ensures b <==> exists i :: from <= i && OccursAt(s, sub, i)
  {
    if OccursAt(s, sub, from) then true
    else if |s| <= from + |sub| then false
    else ContainsFrom(s, sub, from + 1)
  }

  /** Python's `sub in s`. */
  function Contains(s: string, sub: string): (b: bool)
    ensures b <==> exists i :: OccursAt(s, sub, i)
  {
    ContainsFrom(s, sub, 0)
  }

  /** Python's `" ".join(parts)`: the parts in order, one space between
      neighbours, so one character more per gap than the parts hold. */
  function Join(parts: seq<string>): (r: string)
    ensures |parts| >= 1 ==> |r| == TotalLength(parts) + |parts| - 1
  {
    if |parts| == 0 then ""
    else if |parts| == 1 then parts[0]
    else parts[0] + " " + Join(parts[1..])
  }

  /** Python's `s.split(" ")`: cut at every single space; never empty. */
  function Split(s: string): (r: seq<string>)
    ensures |r| >= 1
  {
    if |s| == 0 then [""]
    else
      var rest := Split(s[1..]);
      if s[0] == ' ' then [""] + rest
      else [[s[0]] + rest[0]] + rest[1..]
  }

  /** The sum of the lengths of the parts. */
  function TotalLength(parts: seq<string>): nat {
    if |parts| == 0 then 0 else |parts[0]| + TotalLength(parts[1..])
  }

  predicate NoSpaces(parts: seq<string>) {
    forall k :: 0 <= k < |parts| ==> ' ' !in parts[k]
  }

  /** Where part `k` starts in the join: after the earlier parts and one space
      for each of them. */
  function JoinOffset(parts: seq<string>, k: nat): nat
    requires k <= |parts|
  {
    TotalLength(parts[..k]) + k
  }

  /** An occurrence in `rest` is one in `pre + rest`, shifted by `pre`. */
  lemma ShiftOccurs(pre: string, rest: string, sub: string, i: nat)
    requires OccursAt(rest, sub, i)
    ensures OccursAt(pre + rest, sub, |pre| + i)
  {
    assert (pre + rest)[|pre| + i..|pre| + i + |sub|] == rest[i..i + |sub|];
  }

  /** An occurrence past the first `d` characters is one in what follows them. */
  lemma UnshiftOccurs(t: string, d: nat, sub: string, i: nat)
    requires d <= |t| && OccursAt(t, sub, d + i)
    ensures OccursAt(t[d..], sub, i)
  {
    assert t[d..][i..i + |sub|] == t[d + i..d + i + |sub|];
  }

  /** Offsets past the first part are those of the remaining parts, shifted by the
      first part and its space. */
  lemma OffsetStep(parts: seq<string>, k: nat)
    requires 1 <= k <= |parts|
    ensures JoinOffset(parts, k) == |parts[0]| + 1 + JoinOffset(parts[1..], k - 1)
  {
    assert parts[..k][1..] == parts[1..][..k - 1];
  }

  /** Every part of `parts` stands in `t` at its join offset, and every part but
      the last is followed by a single space. */
  predicate PlacedAt(t: string, parts: seq<string>) {
    forall k :: 0 <= k < |parts| ==>
      OccursAt(t, parts[k], JoinOffset(parts, k))
      && (k + 1 < |parts| ==>
            JoinOffset(parts, k) + |parts[k]| < |t| && t[JoinOffset(parts, k) + |parts[k]|] == ' ')
  }

  /** The join starts with the first part, followed by a space when more parts
      follow. */
  lemma JoinHead(parts: seq<string>)
    requires |parts| >= 1
    ensures OccursAt(Join(parts), parts[0], JoinOffset(parts, 0))
    ensures |parts| > 1 ==> |parts[0]| < |Join(parts)| && Join(parts)[|parts[0]|] == ' '
  {
    assert parts[..0] == [];
    if |parts| > 1 {
      assert (parts[0] + " " + Join(parts[1..]))[..|parts[0]|] == parts[0];
    }
  }

  /** In the join, every part stands at its offset, in order, and every part but
      the last is followed by a single space. */
  lemma {:induction false} JoinPlaces(parts: seq<string>, k: nat)
    requires k < |parts|
    ensures OccursAt(Join(parts), parts[k], JoinOffset(parts, k))
    ensures k + 1 < |parts| ==>
              JoinOffset(parts, k) + |parts[k]| < |Join(parts)|
              && Join(parts)[JoinOffset(parts, k) + |parts[k]|] == ' '
  {
    if k == 0 {
      JoinHead(parts);
    } else {
      var pre, rest := parts[0] + " ", Join(parts[1..]);
      assert Join(parts) == pre + rest;
      JoinPlaces(parts[1..], k - 1);
      OffsetStep(parts, k);
      var inner := JoinOffset(parts[1..], k - 1);
      ShiftOccurs(pre, rest, parts[k], inner);
      if k + 1 < |parts| {
        assert (pre + rest)[|pre| + inner + |parts[k]|] == rest[inner + |parts[k]|];
      }
    }
  }

  /** The join is the one string of its length in which every part stands at
      its offset with a single space after each part but the last. */
  lemma {:induction false} JoinPlacedIff(parts: seq<string>, t: string)
    requires |parts| >= 1
    ensures t == Join(parts) <==> |t| == TotalLength(parts) + |parts| - 1 && PlacedAt(t, parts)
  {
    if t == Join(parts) {
      forall k | 0 <= k < |parts|
        ensures OccursAt(t, parts[k], JoinOffset(parts, k))
        ensures k + 1 < |parts| ==>
                  JoinOffset(parts, k) + |parts[k]| < |t| && t[JoinOffset(parts, k) + |parts[k]|] == ' '
      {
        JoinPlaces(parts, k);
      }
    }
    if |t| == TotalLength(parts) + |parts| - 1 && PlacedAt(t, parts) {
      JoinFromPlaces(parts, t);
    }
  }

  /** A string of the join's length with every part and space in place is the join. */
  lemma {:induction false} JoinFromPlaces(parts: seq<string>, t: string)
    requires |parts| >= 1 && |t| == TotalLength(parts) + |parts| - 1 && PlacedAt(t, parts)
    ensures t == Join(parts)
  {
    var n0 := |parts[0]|;
    PlacedFirst(parts, t);
    if |parts| == 1 {
      assert t == t[0..n0];
    } else {
      var u := t[n0 + 1..];
      PlacedAfterFirst(parts, t);
      JoinFromPlaces(parts[1..], u);
      assert t == t[..n0] + [t[n0]] + u;
    }
  }

  /** The first part opens the string, followed by a space when more parts follow. */
  lemma PlacedFirst(parts: seq<string>, t: string)
    requires |parts| >= 1 && PlacedAt(t, parts)
    ensures |parts[0]| <= |t| && t[..|parts[0]|] == parts[0]
    ensures |parts| > 1 ==> |parts[0]| < |t| && t[|parts[0]|] == ' '
  {
    assert parts[..0] == [];
    assert OccursAt(t, parts[0], JoinOffset(parts, 0));
  }

  /** Dropping the first part and its space leaves the other parts in place. */
  lemma PlacedAfterFirst(parts: seq<string>, t: string)
    requires |parts| > 1 && PlacedAt(t, parts)
    ensures |parts[0]| + 1 <= |t| && PlacedAt(t[|parts[0]| + 1..], parts[1..])
  {
    assert parts[..0] == [];
    var rest, d := parts[1..], |parts[0]| + 1;
    assert JoinOffset(parts, 0) + |parts[0]| < |t|;
    forall k | 0 <= k < |rest|
      ensures OccursAt(t[d..], rest[k], JoinOffset(rest, k))
      ensures k + 1 < |rest| ==>
                JoinOffset(rest, k) + |rest[k]| < |t[d..]| && t[d..][JoinOffset(rest, k) + |rest[k]|] == ' '
    {
      OffsetStep(parts, k + 1);
      assert OccursAt(t, parts[k + 1], JoinOffset(parts, k + 1));
      UnshiftOccurs(t, d, rest[k], JoinOffset(rest, k));
      if k + 1 < |rest| {
        assert t[JoinOffset(parts, k + 1) + |parts[k + 1]|] == ' ';
      }
    }
  }

  /** Splitting undoes joining: every string is the join of its split. */
  lemma {:induction false} JoinSplit(s: string)
    ensures Join(Split(s)) == s
  {
    if |s| > 0 {
      var rest := Split(s[1..]);
      JoinSplit(s[1..]);
      if s[0] == ' ' {
        assert Split(s) == [""] + rest;
        assert Join(Split(s)) == "" + " " + Join(rest);
      } else {
        var head := [s[0]] + rest[0];
        assert Split(s) == [head] + rest[1..];
        if |rest| == 1 {
          assert Join(Split(s)) == head;
        } else {
          assert ([head] + rest[1..])[1..] == rest[1..];
          assert Join(rest) == rest[0] + " " + Join(rest[1..]);
        }
      }
      assert s == [s[0]] + s[1..];
    }
  }

  /** A space-free prefix is absorbed into the first piece of the split. */
  lemma {:induction false} SplitSpaceFreePrefix(x: string, y: string)
    requires ' ' !in x
    ensures Split(x + y) == [x + Split(y)[0]] + Split(y)[1..]
  {
    if |x| > 0 {
      assert (x + y)[1..] == x[1..] + y;
      SplitSpaceFreePrefix(x[1..], y);
      var r, rest := Split(y), Split(x[1..] + y);
      assert x[0] != ' ' by { assert x[0] in x; }
      assert Split(x + y) == [[x[0]] + rest[0]] + rest[1..];
      assert rest[0] == x[1..] + r[0] && rest[1..] == r[1..];
      assert [x[0]] + (x[1..] + r[0]) == x + r[0];
    } else {
      var r := Split(y);
      assert x + y == y && x + r[0] == r[0];
      assert r == [r[0]] + r[1..];
    }
  }

  /** Joining undoes splitting when no part holds a space. */
  lemma {:induction false} SplitJoin(parts: seq<string>)
    requires |parts| >= 1 && NoSpaces(parts)
    ensures Split(Join(parts)) == parts
  {
    if |parts| == 1 {
      SplitSpaceFreePrefix(parts[0], "");
      assert parts[0] + "" == parts[0];
    } else {
      var tail := Join(parts[1..]);
      SplitJoin(parts[1..]);
      assert Split(" " + tail) == [""] + Split(tail) by {
        assert (" " + tail)[1..] == tail;
      }
      assert parts[0] + " " + tail == parts[0] + (" " + tail);
      SplitSpaceFreePrefix(parts[0], " " + tail);
      var r := Split(" " + tail);
      assert r[0] == "" && r[1..] == Split(tail);
      assert parts[0] + r[0] == parts[0];
      assert Join(parts) == parts[0] + (" " + tail);
      assert parts == [parts[0]] + parts[1..];
    }
  }
}
