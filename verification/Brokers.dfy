/** Broker lists: normalizing them, joining them into one string, and splitting such a string again. */
module Brokers {
  import opened Common

  const DEFAULT_BROKER := "localhost:9092"

  /** The characters Go's strings.TrimSpace removes. */
  predicate IsSpace(c: char) {
    c in {'\t', '\n', '\U{000B}', '\U{000C}', '\r', ' ', '\U{0085}', '\U{00A0}', '\U{1680}', '\U{2028}', '\U{2029}',
          '\U{202F}', '\U{205F}', '\U{3000}'} || '\U{2000}' <= c <= '\U{200A}'
  }

  function TrimLeft(s: string): string {
    if s != "" && IsSpace(s[0]) then TrimLeft(s[1..]) else s
  }

  function TrimRight(s: string): string {
    if s != "" && IsSpace(s[|s| - 1]) then TrimRight(s[..|s| - 1]) else s
  }

  function Trim(s: string): string {
    TrimRight(TrimLeft(s))
  }

  predicate IsTrimmed(s: string) {
    s == "" || (!IsSpace(s[0]) && !IsSpace(s[|s| - 1]))
  }

  function Normalize(list: seq<string>): seq<string> {
    if list == [] then []
    else
      var last := Trim(list[|list| - 1]);
      Normalize(list[..|list| - 1]) + (if last != "" then [last] else [])
  }

  predicate IsNormal(list: seq<string>) {
    forall b :: b in list ==> b != "" && IsTrimmed(b)
  }

  predicate CommaFree(list: seq<string>) {
    forall b :: b in list ==> ',' !in b
  }

  method NormalizeBrokers(brokers: seq<string>) returns (out: seq<string>)
    ensures out == Normalize(brokers)
  {
    out := [];
    for i := 0 to |brokers|
      invariant out == Normalize(brokers[..i])
    {
      assert brokers[..i + 1][..i] == brokers[..i];
      var broker := Trim(brokers[i]);
      if broker != "" {
        out := out + [broker];
      }
    }
    assert brokers[..|brokers|] == brokers;
  }

  function Join(list: seq<string>): string {
    if list == [] then ""
    else if |list| == 1 then list[0]
    else list[0] + "," + Join(list[1..])
  }

  /** The pieces between the commas of s. */
  function Split(s: string): seq<string> {
    if s == "" then [""]
    else
      var rest := Split(s[1..]);
      if s[0] == ',' then [""] + rest
      else if rest == [] then [[s[0]]]
      else [[s[0]] + rest[0]] + rest[1..]
  }

  function SplitBrokers(raw: string): seq<string> {
    Normalize(Split(raw))
  }

  // ---- trimming --------------------------------------------------------------------------------------

  lemma {:induction false} TrimLeftShape(s: string)
    ensures TrimLeft(s) == "" || !IsSpace(TrimLeft(s)[0])
    ensures |TrimLeft(s)| <= |s| && TrimLeft(s) == s[|s| - |TrimLeft(s)|..]
    ensures forall i :: 0 <= i < |s| - |TrimLeft(s)| ==> IsSpace(s[i])
  {
    if s != "" && IsSpace(s[0]) {
      TrimLeftShape(s[1..]);
      var k := |s[1..]| - |TrimLeft(s[1..])|;
      assert TrimLeft(s) == s[1..][k..] == s[1 + k..];
    } else {
      assert TrimLeft(s) == s == s[0..];
    }
  }

  lemma {:induction false} TrimRightShape(s: string)
    ensures TrimRight(s) == "" || !IsSpace(TrimRight(s)[|TrimRight(s)| - 1])
    ensures TrimRight(s) <= s && forall i :: |TrimRight(s)| <= i < |s| ==> IsSpace(s[i])
  {
    if s != "" && IsSpace(s[|s| - 1]) {
      TrimRightShape(s[..|s| - 1]);
    }
  }

  /** Trimming takes off spaces at both ends, and all of them. */
  lemma TrimShape(s: string)
    ensures IsTrimmed(Trim(s))
    ensures exists i, j :: 0 <= i <= j <= |s| && Trim(s) == s[i..j]
                        && forall k :: 0 <= k < i || j <= k < |s| ==> IsSpace(s[k])
    ensures ',' !in s ==> ',' !in Trim(s)
    ensures IsTrimmed(s) ==> Trim(s) == s
  {
    var left := TrimLeft(s);
    TrimLeftShape(s);
    TrimRightShape(left);
    hide TrimLeft, TrimRight, IsSpace;
    var i := |s| - |left|;
    var j := i + |Trim(s)|;
    assert left == s[i..] && Trim(s) == left[..j - i];
    assert s[i..][..j - i] == s[i..j];
    forall k | j <= k < |s|
      ensures IsSpace(s[k])
    {
      assert s[k] == left[k - i];
    }
    assert IsTrimmed(Trim(s)) by {
      assert Trim(s) != "" ==> Trim(s)[0] == left[0];
    }
  }

  lemma {:induction false} NormalizeShape(list: seq<string>)
    ensures IsNormal(Normalize(list))
    ensures CommaFree(list) ==> CommaFree(Normalize(list))
  {
    if list != [] {
      NormalizeShape(list[..|list| - 1]);
      TrimShape(list[|list| - 1]);
    }
  }

  /** The i-th entry comes from position at[i], the positions go up, and they are those of all entries that are not blank. */
  ghost predicate ComesFrom(list: seq<string>, out: seq<string>, at: seq<nat>) {
    && |at| == |out|
    && Increasing(at)
    && (forall i :: 0 <= i < |at| ==> at[i] < |list| && out[i] == Trim(list[at[i]]) != "")
    && (forall k :: 0 <= k < |list| && Trim(list[k]) != "" ==> k in at)
  }

  /** Normalizing trims every entry and drops those of which nothing is left, and changes nothing else. */
  lemma {:induction false} NormalizeExactly(list: seq<string>) returns (at: seq<nat>)
    ensures ComesFrom(list, Normalize(list), at)
  {
    hide Trim;
    if list == [] {
      at := [];
    } else {
      hide ComesFrom;
      var k := |list| - 1;
      at := NormalizeExactly(list[..k]);
      ComesFromNext(list, Normalize(list[..k]), at);
      at := if Trim(list[k]) != "" then at + [k] else at;
    }
  }

  lemma SomethingLeft(list: seq<string>)
    ensures Normalize(list) != [] <==> exists b :: b in list && Trim(b) != ""
  {
    var at := NormalizeExactly(list);
    hide Normalize, Trim;
    if b :| b in list && Trim(b) != "" {
      var k :| 0 <= k < |list| && list[k] == b;
      assert k in at;
    }
    if at != [] {
      assert list[at[0]] in list && Trim(list[at[0]]) != "";
    }
  }

  lemma ComesFromNext(list: seq<string>, out: seq<string>, at: seq<nat>)
    requires list != [] && ComesFrom(list[..|list| - 1], out, at)
    ensures var k := |list| - 1;
      if Trim(list[k]) != "" then ComesFrom(list, out + [Trim(list[k])], at + [k]) else ComesFrom(list, out, at)
  {
    hide Trim;
    assert forall i :: 0 <= i < |list| - 1 ==> list[..|list| - 1][i] == list[i];
  }

  /** Normalizing keeps a list exactly when there is nothing to trim and nothing to drop. */
  lemma {:induction false} NormalizeKeepsExactly(list: seq<string>)
    ensures Normalize(list) == list <==> IsNormal(list)
  {
    NormalizeShape(list);
    if IsNormal(list) && list != [] {
      var before, last := list[..|list| - 1], list[|list| - 1];
      assert list == before + [last] && last in list && forall b :: b in before ==> b in list;
      NormalizeKeepsExactly(before);
      TrimShape(last);
    }
  }

  // ---- joining and splitting ---------------------------------------------------------------------------

  lemma {:induction false} SplitShape(s: string)
    ensures Split(s) != [] && CommaFree(Split(s))
  {
    if s != "" {
      SplitShape(s[1..]);
    }
  }

  lemma {:induction false} SplitOne(b: string)
    requires ',' !in b
    ensures Split(b) == [b]
  {
    if b != "" {
      SplitOne(b[1..]);
      assert [b[0]] + b[1..] == b;
    }
  }

  lemma {:induction false} SplitFirst(b: string, rest: string)
    requires ',' !in b
    ensures Split(b + "," + rest) == [b] + Split(rest)
  {
    var s := b + "," + rest;
    if b == "" {
      assert s[1..] == rest;
    } else {
      assert s[1..] == b[1..] + "," + rest;
      SplitFirst(b[1..], rest);
      assert [b[0]] + b[1..] == b;
    }
  }

  lemma {:induction false} SplitUndoesJoin(list: seq<string>)
    requires list != [] && CommaFree(list)
    ensures Split(Join(list)) == list
  {
    if |list| == 1 {
      SplitOne(list[0]);
    } else {
      SplitFirst(list[0], Join(list[1..]));
      SplitUndoesJoin(list[1..]);
    }
  }

  /** A normalized list comes back from its joined form exactly when no broker contains a comma. */
  lemma SplitBrokersUndoesJoinExactly(list: seq<string>)
    requires IsNormal(list)
    ensures SplitBrokers(Join(list)) == list <==> CommaFree(list)
  {
    SplitShape(Join(list));
    NormalizeShape(Split(Join(list)));
    if CommaFree(list) {
      NormalizeKeepsExactly(list);
      if list == [] {
        assert Trim("") == "" && Split("") == [""] && Normalize([""][..0]) == [];
      } else {
        SplitUndoesJoin(list);
      }
    }
  }

  /** Joined strings tell comma-free normalized lists apart. */
  lemma JoinInjective(a: seq<string>, b: seq<string>)
    requires IsNormal(a) && IsNormal(b) && CommaFree(a) && CommaFree(b) && Join(a) == Join(b)
    ensures a == b
  {
    SplitBrokersUndoesJoinExactly(a);
    SplitBrokersUndoesJoinExactly(b);
  }

  // ---- when two lists join to one string ------------------------------------------------------------------

  /** The pieces between the commas of all brokers of a list. */
  function Pieces(list: seq<string>): seq<string> {
    if list == [] then [] else Split(list[0]) + Pieces(list[1..])
  }

  lemma {:induction false} SplitConcat(b: string, rest: string)
    ensures Split(b + "," + rest) == Split(b) + Split(rest)
  {
    var s := b + "," + rest;
    if b == "" {
      assert s[1..] == rest;
    } else {
      assert s[1..] == b[1..] + "," + rest;
      SplitConcat(b[1..], rest);
      SplitShape(b[1..]);
    }
  }

  lemma {:induction false} SplitOfJoin(list: seq<string>)
    requires list != []
    ensures Split(Join(list)) == Pieces(list)
  {
    if |list| == 1 {
      assert Pieces(list[1..]) == [];
    } else {
      SplitConcat(list[0], Join(list[1..]));
      SplitOfJoin(list[1..]);
    }
  }

  lemma {:induction false} JoinUndoesSplit(s: string)
    ensures Join(Split(s)) == s
  {
    if s != "" {
      var rest := Split(s[1..]);
      SplitShape(s[1..]);
      JoinUndoesSplit(s[1..]);
      assert [s[0]] + s[1..] == s;
      if s[0] == ',' {
        assert ([""] + rest)[1..] == rest;
      } else {
        assert ([[s[0]] + rest[0]] + rest[1..])[1..] == rest[1..];
        if |rest| > 1 {
          assert [s[0]] + (rest[0] + "," + Join(rest[1..])) == ([s[0]] + rest[0]) + "," + Join(rest[1..]);
        }
      }
    }
  }

  /** Two lists join to one string if and only if their brokers have the same pieces between commas. */
  lemma SameJoinExactly(a: seq<string>, b: seq<string>)
    requires a != [] && b != []
    ensures Join(a) == Join(b) <==> Pieces(a) == Pieces(b)
  {
    SplitOfJoin(a);
    SplitOfJoin(b);
    JoinUndoesSplit(Join(a));
    JoinUndoesSplit(Join(b));
  }
}
