/**
 The volume ranges of a swap-history request (src/types/trading/swap_history.rs): the comma-separated
 list of names in the query string.
 */
module VolumeRanges {
  import opened Prelude
  import opened Text
  import opened SwapQuery

  /** Unicode's White_Space, which `trim` strips. */
  predicate IsSpace(c: char) {
    || '\t' <= c <= '\r' || c == ' ' || c == '\U{85}' || c == '\U{a0}' || c == '\U{1680}'
    || '\U{2000}' <= c <= '\U{200a}' || c == '\U{2028}' || c == '\U{2029}' || c == '\U{202f}'
    || c == '\U{205f}' || c == '\U{3000}'
  }

  function TrimStart(s: string): string { if s != "" && IsSpace(s[0]) then TrimStart(s[1..]) else s }

  function TrimEnd(s: string): string {
    if s != "" && IsSpace(s[|s| - 1]) then TrimEnd(s[..|s| - 1]) else s
  }

  function Trim(s: string): string { TrimEnd(TrimStart(s)) }

  /** `s.split(',')` */
  function Split(s: string): (parts: seq<string>)
    ensures |parts| > 0
  {
    if s == "" then [""]
    else
      var rest := Split(s[1..]);
      if s[0] == ',' then [""] + rest else [[s[0]] + rest[0]] + rest[1..]
  }

  function RangeNamed(name: string): Option<VolumeRange> {
    if name == "small" then Some(Small)
    else if name == "medium" then Some(Medium)
    else if name == "large" then Some(Large)
    else None
  }

  /** One part of the list: nothing, a range, or an error. */
  function PartRange(part: string): Result<seq<VolumeRange>, string> {
    var trimmed := Trim(part);
    if trimmed == "" then Ok([])
    else match RangeNamed(Lower(trimmed))
      case Some(r) => Ok([r])
      case None => Err(trimmed)
  }

  function Prepend(front: seq<VolumeRange>, r: Result<seq<VolumeRange>, string>)
    : Result<seq<VolumeRange>, string>
  {
    match r case Ok(rest) => Ok(front + rest) case Err(e) => Err(e)
  }

  function PartRanges(parts: seq<string>): Result<seq<VolumeRange>, string> {
    if parts == [] then Ok([])
    else match PartRange(parts[0])
      case Err(e) => Err(e)
      case Ok(first) => Prepend(first, PartRanges(parts[1..]))
  }

  /** `deserialize_volume_ranges` on a present parameter. */
  method DeserializeVolumeRanges(s: string) returns (r: Result<Option<seq<VolumeRange>>, string>)
    ensures r == match PartRanges(Split(s))
                 case Ok(ranges) => Ok(if ranges == [] then None else Some(ranges))
                 case Err(e) => Err(e)
  {
    var parts := Split(s);
    var ranges: seq<VolumeRange> := [];
    PrependNothing(PartRanges(parts));
    assert parts[0..] == parts;
    for i := 0 to |parts|
      invariant PartRanges(parts) == Prepend(ranges, PartRanges(parts[i..]))
    {
      assert parts[i..][1..] == parts[i + 1..];
      var trimmed := Trim(parts[i]);
      if trimmed != "" {
        var range := RangeNamed(Lower(trimmed));
        if range.None? {
          return Err(trimmed);
        }
        PrependTwice(ranges, [range.value], PartRanges(parts[i + 1..]));
        ranges := ranges + [range.value];
      } else {
        PrependTwice(ranges, [], PartRanges(parts[i + 1..]));
        assert ranges + [] == ranges;
      }
    }
    assert ranges + [] == ranges;
    return Ok(if ranges == [] then None else Some(ranges));
  }

  lemma PrependNothing(r: Result<seq<VolumeRange>, string>)
    ensures Prepend([], r) == r
  {
    if r.Ok? {
      assert [] + r.value == r.value;
    }
  }

  lemma PrependTwice(a: seq<VolumeRange>, b: seq<VolumeRange>, r: Result<seq<VolumeRange>, string>)
    ensures Prepend(a, Prepend(b, r)) == Prepend(a + b, r)
  {
    if r.Ok? {
      assert a + (b + r.value) == a + b + r.value;
    }
  }

  function Name(r: VolumeRange): string {
    match r case Small => "small" case Medium => "medium" case Large => "large"
  }

  function JoinNames(rs: seq<VolumeRange>): string
    requires rs != []
  {
    if |rs| == 1 then Name(rs[0]) else Name(rs[0]) + "," + JoinNames(rs[1..])
  }

  lemma {:induction false} SplitAtComma(name: string, rest: string)
    requires forall i :: 0 <= i < |name| ==> name[i] != ','
    ensures Split(name) == [name]
    ensures Split(name + "," + rest) == [name] + Split(rest)
  {
    if name == "" {
      assert "" + "," + rest == "," + rest;
      assert ("," + rest)[1..] == rest;
    } else {
      SplitAtComma(name[1..], rest);
      assert (name + "," + rest)[1..] == name[1..] + "," + rest;
      assert [name[0]] + name[1..] == name;
    }
  }

  /** Every non-empty list of ranges has a text form that is read back as exactly that list. */
  lemma {:induction false} RangeListRoundTrip(rs: seq<VolumeRange>)
    requires rs != []
    ensures PartRanges(Split(JoinNames(rs))) == Ok(rs)
  {
    var name := Name(rs[0]);
    NameIsOnePart(rs[0]);
    hide Name, PartRange;
    var text := if |rs| == 1 then "" else JoinNames(rs[1..]);
    SplitAtComma(name, text);
    if |rs| == 1 {
      assert [name][1..] == [];
    } else {
      RangeListRoundTrip(rs[1..]);
      assert ([name] + Split(text))[1..] == Split(text);
    }
    assert rs == [rs[0]] + rs[1..];
  }

  lemma TrimNothing(s: string)
    requires s != "" && !IsSpace(s[0]) && !IsSpace(s[|s| - 1])
    ensures Trim(s) == s
  {
    hide IsSpace;
  }

  lemma NameIsLower(r: VolumeRange)
    ensures Lower(Name(r)) == Name(r)
    ensures forall i :: 0 <= i < |Name(r)| ==> Name(r)[i] != ','
  {
    assert Lower("small") == "small";
    assert Lower("medium") == "medium";
    assert Lower("large") == "large";
  }

  lemma NameIsOnePart(r: VolumeRange)
    ensures PartRange(Name(r)) == Ok([r])
    ensures forall i :: 0 <= i < |Name(r)| ==> Name(r)[i] != ','
  {
    hide Trim;
    TrimNothing(Name(r));
    NameIsLower(r);
  }

  // ----- What a part may look like -----

  predicate Blank(s: string) { forall i :: 0 <= i < |s| ==> IsSpace(s[i]) }

  /** A name in any letter case with any white space around it. */
  ghost predicate Spells(part: string, r: VolumeRange) {
    exists pre, name, post :: part == pre + name + post && Blank(pre) && Blank(post) && Lower(name) == Name(r)
  }

  lemma {:induction false} TrimStartSplits(s: string) returns (pre: string)
    ensures s == pre + TrimStart(s) && Blank(pre)
    ensures TrimStart(s) == "" || !IsSpace(TrimStart(s)[0])
  {
    hide IsSpace;
    if s == "" || !IsSpace(s[0]) {
      pre := "";
    } else {
      pre := TrimStartSplits(s[1..]);
      pre := [s[0]] + pre;
      assert s == [s[0]] + s[1..];
    }
  }

  lemma {:induction false} TrimEndSplits(s: string) returns (post: string)
    ensures s == TrimEnd(s) + post && Blank(post)
    ensures TrimEnd(s) == "" || !IsSpace(TrimEnd(s)[|TrimEnd(s)| - 1])
  {
    hide IsSpace;
    if s == "" || !IsSpace(s[|s| - 1]) {
      post := "";
    } else {
      var n := |s| - 1;
      post := TrimEndSplits(s[..n]);
      post := post + [s[n]];
      assert s == s[..n] + [s[n]];
    }
  }

  lemma {:induction false} TrimStartPadded(pre: string, s: string)
    requires Blank(pre) && (s == "" || !IsSpace(s[0]))
    ensures TrimStart(pre + s) == s
  {
    hide IsSpace;
    if pre == "" {
      assert pre + s == s;
    } else {
      assert (pre + s)[1..] == pre[1..] + s;
      TrimStartPadded(pre[1..], s);
    }
  }

  lemma {:induction false} TrimEndPadded(s: string, post: string)
    requires Blank(post) && (s == "" || !IsSpace(s[|s| - 1]))
    ensures TrimEnd(s + post) == s
  {
    hide IsSpace;
    if post == "" {
      assert s + post == s;
    } else {
      var n := |post| - 1;
      assert (s + post)[..|s + post| - 1] == s + post[..n];
      TrimEndPadded(s, post[..n]);
    }
  }

  lemma TrimPadded(pre: string, s: string, post: string)
    requires Blank(pre) && Blank(post) && s != "" && !IsSpace(s[0]) && !IsSpace(s[|s| - 1])
    ensures Trim(pre + s + post) == s
  {
    hide IsSpace, TrimStart, TrimEnd;
    assert pre + s + post == pre + (s + post);
    TrimStartPadded(pre, s + post);
    TrimEndPadded(s, post);
  }

  lemma NamesHaveNoSpace(name: string, r: VolumeRange)
    requires Lower(name) == Name(r)
    ensures name != "" && !IsSpace(name[0]) && !IsSpace(name[|name| - 1])
  {
    assert LowerChar(name[0]) == Name(r)[0] && LowerChar(name[|name| - 1]) == Name(r)[|name| - 1];
  }

  /** A part is read as a range exactly if it spells its name, and as nothing exactly if it is blank. */
  lemma PartIff(part: string, r: VolumeRange)
    ensures PartRange(part) == Ok([r]) <==> Spells(part, r)
    ensures PartRange(part) == Ok([]) <==> Blank(part)
  {
    hide IsSpace, TrimStart, TrimEnd, Lower;
    var pre := TrimStartSplits(part);
    var post := TrimEndSplits(TrimStart(part));
    assert part == pre + Trim(part) + post;
    NamedIff(Lower(Trim(part)), r);
    if PartRange(part) == Ok([r]) {
      assert Spells(part, r);
    }
    if Spells(part, r) {
      var front, name, back :| part == front + name + back && Blank(front) && Blank(back) && Lower(name) == Name(r);
      NamesHaveNoSpace(name, r);
      TrimPadded(front, name, back);
    }
    BlankTrims(part);
  }

  lemma NamedIff(text: string, r: VolumeRange)
    ensures RangeNamed(text) == Some(r) <==> text == Name(r)
  {
  }

  lemma BlankTrims(s: string)
    ensures Trim(s) == "" <==> Blank(s)
  {
    hide IsSpace, TrimStart, TrimEnd;
    var pre := TrimStartSplits(s);
    var post := TrimEndSplits(TrimStart(s));
    assert s == pre + (Trim(s) + post);
    if Trim(s) != "" {
      assert s[|pre|] == TrimStart(s)[0];
    }
  }

  function JoinParts(parts: seq<string>): string
    requires parts != []
  {
    if |parts| == 1 then parts[0] else parts[0] + "," + JoinParts(parts[1..])
  }

  /** The parts hold no comma and, joined with commas, are the text. */
  lemma {:induction false} SplitJoins(s: string)
    ensures JoinParts(Split(s)) == s
    ensures forall k :: 0 <= k < |Split(s)| ==> ',' !in Split(s)[k]
  {
    if s == "" {
    } else {
      var rest := Split(s[1..]);
      SplitJoins(s[1..]);
      assert s == [s[0]] + s[1..];
      if s[0] == ',' {
        assert ([""] + rest)[1..] == rest;
      } else {
        assert ([[s[0]] + rest[0]] + rest[1..])[1..] == rest[1..];
      }
    }
  }
}
