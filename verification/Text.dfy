/**
 * The Python and JavaScript string operations the modelled code uses: substring search,
 * split, partition, join, strip and lower-casing. A `string` is a sequence of Unicode
 * scalar values, which is what a well-formed string is in both languages.
 */
module Text {
  import opened Prelude

  predicate OccursAt(s: string, t: string, i: int) {
    0 <= i && i + |t| <= |s| && s[i..i + |t|] == t
  }

  predicate Contains(s: string, t: string) {
    exists i :: 0 <= i <= |s| && OccursAt(s, t, i)
  }

  predicate StartsWith(s: string, prefix: string) {
    |prefix| <= |s| && s[..|prefix|] == prefix
  }

  predicate EndsWith(s: string, suffix: string) {
    |suffix| <= |s| && s[|s| - |suffix|..] == suffix
  }

  /** Position of the first `c`, or |s| when there is none. */
  function IndexOf(s: string, c: char): (i: nat)
    ensures i <= |s|
    ensures c !in s[..i]
    ensures i < |s| ==> s[i] == c
    ensures i == |s| <==> c !in s
  {
    if s == "" then 0
    else if s[0] == c then 0
    else
      var i := IndexOf(s[1..], c) + 1;
      assert s[..i] == [s[0]] + s[1..][..i - 1];
      assert s == [s[0]] + s[1..];
      i
  }

  /** The first index is determined by the prefix free of `c` and the `c` behind it. */
  lemma {:induction false} IndexOfIs(a: string, c: char, b: string)
    requires c !in a
    ensures IndexOf(a + [c] + b, c) == |a|
  {
    if a != "" {
      assert a[0] in a;
      assert (a + [c] + b)[1..] == a[1..] + [c] + b;
      IndexOfIs(a[1..], c, b);
    }
  }

  /** Split at every `c`; always at least one piece. */
  function Split(s: string, c: char): (parts: seq<string>)
    ensures |parts| >= 1
    decreases |s|
  {
    var i := IndexOf(s, c);
    if i == |s| then [s] else [s[..i]] + Split(s[i + 1..], c)
  }

  /** The parts before and after the last `c`. */
  function RPartition(s: string, c: char): Option<(string, string)> {
    if s == "" then None
    else if s[|s| - 1] == c then Some((s[..|s| - 1], ""))
    else match RPartition(s[..|s| - 1], c)
      case None => None
      case Some((head, tail)) => Some((head, tail + [s[|s| - 1]]))
  }

  lemma {:induction false} RPartitionIff(s: string, c: char, head: string, tail: string)
    ensures RPartition(s, c) == Some((head, tail)) <==> s == head + [c] + tail && c !in tail
  {
    if s == "" {
    } else if s[|s| - 1] == c {
      assert tail != [] && s == head + [c] + tail ==> tail[|tail| - 1] == c;
      assert s == s[..|s| - 1] + [c] + "";
      assert tail == [] ==> (head + [c] + tail)[..|head|] == head;
    } else if tail != [] {
      var init := s[..|s| - 1];
      RPartitionIff(init, c, head, tail[..|tail| - 1]);
      assert tail == tail[..|tail| - 1] + [tail[|tail| - 1]];
      assert (head + [c] + tail)[..|head| + |tail|] == head + [c] + tail[..|tail| - 1];
    }
  }

  /** The text before and after the first `c`, if there is one. */
  function Partition(s: string, c: char): Option<(string, string)> {
    var i := IndexOf(s, c);
    if i == |s| then None else Some((s[..i], s[i + 1..]))
  }

  lemma PartitionIs(a: string, c: char, b: string)
    requires c !in a
    ensures Partition(a + [c] + b, c) == Some((a, b))
  {
    IndexOfIs(a, c, b);
    var s := a + [c] + b;
    assert s[..|a|] == a;
    assert s[|a| + 1..] == b;
  }

  function Join(parts: seq<string>, sep: string): string {
    if parts == [] then ""
    else if |parts| == 1 then parts[0]
    else parts[0] + sep + Join(parts[1..], sep)
  }

  lemma JoinThree(a: string, b: string, c: string, sep: string)
    ensures Join([a, b, c], sep) == a + sep + b + sep + c
  {
    assert [a, b, c][1..] == [b, c];
    assert [b, c][1..] == [c];
    assert Join([b, c], sep) == b + sep + c;
    assert a + sep + (b + sep + c) == a + sep + b + sep + c;
  }

  /** A first piece without the separator is split off. */
  lemma SplitCons(a: string, c: char, rest: string)
    requires c !in a
    ensures Split(a + [c] + rest, c) == [a] + Split(rest, c)
  {
    IndexOfIs(a, c, rest);
    var s := a + [c] + rest;
    assert s[..|a|] == a;
    assert s[|a| + 1..] == rest;
  }

  /** Splitting a join recovers the parts when none of them holds the separator. */
  lemma {:induction false} SplitJoin(parts: seq<string>, c: char)
    requires parts != []
    requires forall i :: 0 <= i < |parts| ==> c !in parts[i]
    ensures Split(Join(parts, [c]), c) == parts
  {
    if |parts| == 1 {
      assert c !in parts[0];
    } else {
      SplitJoin(parts[1..], c);
      SplitCons(parts[0], c, Join(parts[1..], [c]));
      assert parts == [parts[0]] + parts[1..];
    }
  }

  /** Joining a split gives the text back, and no piece holds the separator. */
  lemma {:induction false} JoinSplit(s: string, c: char)
    ensures Join(Split(s, c), [c]) == s
    ensures forall i :: 0 <= i < |Split(s, c)| ==> c !in Split(s, c)[i]
    decreases |s|
  {
    var i := IndexOf(s, c);
    if i < |s| {
      JoinSplit(s[i + 1..], c);
      var parts := Split(s, c);
      assert parts[1..] == Split(s[i + 1..], c);
      assert s == s[..i] + [c] + s[i + 1..];
    }
  }

  /** White space as `str.isspace` and `str.strip` see it. */
  predicate IsSpace(c: char) {
    var u := c as int;
    || 9 <= u <= 13 || 28 <= u <= 32 || u == 0x85 || u == 0xA0 || u == 0x1680
    || 0x2000 <= u <= 0x200A || u == 0x2028 || u == 0x2029 || u == 0x202F || u == 0x205F || u == 0x3000
  }

  function LStrip(s: string): (r: string)
    ensures r == "" || !IsSpace(r[0])
    ensures |r| <= |s| && r == s[|s| - |r|..]
  {
    if s == "" then "" else if IsSpace(s[0]) then LStrip(s[1..]) else s
  }

  function RStrip(s: string): (r: string)
    ensures r == "" || !IsSpace(r[|r| - 1])
    ensures |r| <= |s| && r == s[..|r|]
  {
    if s == "" then "" else if IsSpace(s[|s| - 1]) then RStrip(s[..|s| - 1]) else s
  }

  function Strip(s: string): string {
    RStrip(LStrip(s))
  }

  /** No white space at either end. */
  predicate Trimmed(s: string) {
    s == "" || (!IsSpace(s[0]) && !IsSpace(s[|s| - 1]))
  }

  /** `Strip` yields a trimmed string and leaves exactly the trimmed strings alone. */
  lemma StripTrimmed(s: string)
    ensures Trimmed(Strip(s))
    ensures Strip(s) == s <==> Trimmed(s)
  {
    var l := LStrip(s);
    var r := RStrip(l);
    if r != "" {
      assert r[0] == l[0];
    }
    if Trimmed(s) && s != "" {
      assert l == s;
    }
  }

  /** Characters surviving `Strip` come from the string. */
  lemma StripKeeps(s: string, c: char)
    requires c in Strip(s)
    ensures c in s
  {
    var l := LStrip(s);
    assert c in l;
  }

  predicate AllSpace(s: string) {
    forall i :: 0 <= i < |s| ==> IsSpace(s[i])
  }

  predicate Padded(s: string, before: string, t: string, after: string) {
    s == before + (t + after) && AllSpace(before) && AllSpace(after) && Trimmed(t)
  }

  lemma {:induction false} LStripPadding(a: string, s: string)
    requires AllSpace(a)
    ensures LStrip(a + s) == LStrip(s)
  {
    if a == "" {
      assert a + s == s;
    } else {
      assert (a + s)[1..] == a[1..] + s;
      LStripPadding(a[1..], s);
    }
  }

  lemma {:induction false} RStripPadding(s: string, b: string)
    requires AllSpace(b)
    ensures RStrip(s + b) == RStrip(s)
  {
    if b == "" {
      assert s + b == s;
    } else {
      assert (s + b)[..|s + b| - 1] == s + b[..|b| - 1];
      RStripPadding(s, b[..|b| - 1]);
    }
  }

  lemma {:induction false} LStripDrops(s: string)
    ensures AllSpace(s[..|s| - |LStrip(s)|])
  {
    if s != "" && IsSpace(s[0]) {
      LStripDrops(s[1..]);
      var n := |s| - |LStrip(s)|;
      assert s[..n] == [s[0]] + s[1..][..n - 1];
    }
  }

  lemma {:induction false} RStripDrops(s: string)
    ensures AllSpace(s[|RStrip(s)|..])
  {
    if s != "" && IsSpace(s[|s| - 1]) {
      var init, n := s[..|s| - 1], |RStrip(s)|;
      RStripDrops(init);
      assert s[n..] == init[n..] + [s[|s| - 1]];
    }
  }

  /** `Strip` takes away white space at both ends, and all of it. */
  lemma {:induction false} StripIff(s: string, t: string)
    ensures Strip(s) == t <==> exists before, after :: Padded(s, before, t, after)
  {
    if Strip(s) == t {
      var l := LStrip(s);
      LStripDrops(s);
      RStripDrops(l);
      StripTrimmed(s);
      assert Padded(s, s[..|s| - |l|], t, l[|t|..]);
    }
    if before, after :| Padded(s, before, t, after) {
      StripPadded(s, before, t, after);
    }
  }

  lemma StripPadded(s: string, before: string, t: string, after: string)
    requires Padded(s, before, t, after)
    ensures Strip(s) == t
  {
    LStripPadding(before, t + after);
    if t == "" {
      assert t + after == after + "";
      LStripPadding(after, "");
    } else {
      assert LStrip(t + after) == t + after;
      RStripPadding(t, after);
    }
  }

  lemma PaddedMore(s: string, before: string, t: string, after: string, b: string)
    requires Padded(s, before, t, after) && AllSpace(b)
    ensures Padded(s + b, before, t, after + b)
  {
    assert before + (t + after) + b == before + (t + (after + b));
  }

  /** White space in front or behind makes no difference. */
  lemma StripFront(a: string, s: string)
    requires AllSpace(a)
    ensures Strip(a + s) == Strip(s)
  {
    LStripPadding(a, s);
  }

  lemma StripBack(s: string, b: string)
    requires AllSpace(b)
    ensures Strip(s + b) == Strip(s)
  {
    var t := Strip(s);
    StripIff(s, t);
    var before, after :| Padded(s, before, t, after);
    PaddedMore(s, before, t, after, b);
    StripPadded(s + b, before, t, after + b);
  }

  /** The white space of Latin-1, and the rest of it. */
  lemma SpaceIs(c: char)
    ensures c as int < 256 ==> (IsSpace(c) <==>
      c in "\t\n\U{000B}\U{000C}\r\U{001C}\U{001D}\U{001E}\U{001F} \U{0085}\U{00A0}")
    ensures c as int >= 256 ==> (IsSpace(c) <==>
      || c in "\U{1680}\U{2000}\U{2001}\U{2002}\U{2003}\U{2004}\U{2005}\U{2006}\U{2007}\U{2008}\U{2009}\U{200A}"
      || c in "\U{2028}\U{2029}\U{202F}\U{205F}\U{3000}")
  {
  }

  lemma {:induction false} LStripLeadingSpace(s: string)
    ensures LStrip([' '] + s) == LStrip(s)
  {
    assert ([' '] + s)[1..] == s;
  }

  /** Lower-casing of the Latin-1 characters, the ones header lines are read as. */
  function LowerChar(c: char): char {
    var u := c as int;
    if 'A' <= c <= 'Z' || (0xC0 <= u <= 0xDE && u != 0xD7) then (u + 32) as char else c
  }

  function Lower(s: string): (r: string)
    ensures |r| == |s|
    ensures forall i :: 0 <= i < |s| ==> r[i] == LowerChar(s[i])
  {
    seq(|s|, i requires 0 <= i < |s| => LowerChar(s[i]))
  }

  /** Lower-casing maps A to Z, and the capitals of Latin-1 apart from the multiplication sign. */
  lemma LowerLetter(k: nat)
    requires k < 26
    ensures LowerChar("ABCDEFGHIJKLMNOPQRSTUVWXYZ"[k]) == "abcdefghijklmnopqrstuvwxyz"[k]
  {
    assert "ABCDEFGHIJKLMNOPQRSTUVWXYZ"[k] == 'A' + k as char;
    assert "abcdefghijklmnopqrstuvwxyz"[k] == 'a' + k as char;
  }

  lemma LowerOther(c: char)
    ensures '\U{00C0}' <= c <= '\U{00DE}' && c != '\U{00D7}' ==> LowerChar(c) as int == c as int + 0x20
    ensures c < 'A' || 'Z' < c < '\U{00C0}' || c == '\U{00D7}' || '\U{00DE}' < c ==> LowerChar(c) == c
  {
  }

  predicate IsLower(s: string) {
    Lower(s) == s
  }
}
