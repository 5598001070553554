/**
 * The string operations the envelope code relies on: JavaScript's
 * `s.split(":")`, its inverse `parts.join(":")`, and `parts.join("")`.
 */
module Text {

  /** `parts.join(":")`. */
  function JoinWithColon(parts: seq<string>): string {
    if parts == [] then ""
    else if |parts| == 1 then parts[0]
    else parts[0] + ":" + JoinWithColon(parts[1..])
  }

  /**
   * `s.split(":")`: the maximal colon-free pieces of `s`, in order. Like
   * JavaScript it always returns at least one piece (`"".split(":")` is
   * `[""]`), and joining the pieces with colons gives `s` back.
   */
  function SplitOnColon(s: string): (parts: seq<string>)
    ensures |parts| >= 1
    ensures forall i :: 0 <= i < |parts| ==> ':' !in parts[i]
    ensures JoinWithColon(parts) == s
  {
    if s == [] then [""]
    else
      var rest := SplitOnColon(s[1..]);
      if s[0] == ':' then
        assert s == ":" + s[1..];
        [""] + rest
      else
        var parts := [[s[0]] + rest[0]] + rest[1..];
        assert parts[1..] == rest[1..];
        assert s == [s[0]] + s[1..];
        parts
  }

  /** `parts.join("")`. */
  function Concat(parts: seq<string>): string {
    if parts == [] then "" else parts[0] + Concat(parts[1..])
  }

  /** `s` with every colon deleted. */
  function RemoveColons(s: string): (r: string)
    ensures ':' !in r
    ensures |r| <= |s|
  {
    if s == [] then ""
    else if s[0] == ':' then RemoveColons(s[1..])
    else [s[0]] + RemoveColons(s[1..])
  }

  /** A colon-free string splits into itself alone. */
  lemma {:induction false} SplitColonFree(a: string)
    requires ':' !in a
    ensures SplitOnColon(a) == [a]
  {
    if a != [] {
      SplitColonFree(a[1..]);
      assert [a[0]] + a[1..] == a;
    }
  }

  /** A colon-free head before the first colon becomes the first piece. */
  lemma {:induction false} SplitAtFirstColon(a: string, b: string)
    requires ':' !in a
    ensures SplitOnColon(a + ":" + b) == [a] + SplitOnColon(b)
  {
    if a == [] {
      assert a + ":" + b == [':'] + b;
      assert (a + ":" + b)[1..] == b;
    } else {
      assert (a + ":" + b)[1..] == a[1..] + ":" + b;
      SplitAtFirstColon(a[1..], b);
      assert [a[0]] + a[1..] == a;
    }
  }

  /** Splitting on colons and gluing the pieces together deletes the colons. */
  lemma {:induction false} ConcatSplit(s: string)
    ensures Concat(SplitOnColon(s)) == RemoveColons(s)
  {
    if s != [] {
      var rest := SplitOnColon(s[1..]);
      ConcatSplit(s[1..]);
      if s[0] == ':' {
        assert SplitOnColon(s) == [""] + rest;
        assert (["" ] + rest)[1..] == rest;
      } else {
        var parts := [[s[0]] + rest[0]] + rest[1..];
        assert SplitOnColon(s) == parts;
        assert parts[1..] == rest[1..];
        assert Concat(rest) == rest[0] + Concat(rest[1..]);
      }
    }
  }
}
