/**
 * The two java.lang.String operations the configuration code relies on:
 * `split(",")` (a regular-expression split with limit 0) and `trim()`.
 */
module JavaStrings {

  // ---------------------------------------------------------------------
  // split(",")
  // ---------------------------------------------------------------------

  /** Every piece of `s` between commas, empty pieces included: k commas give k + 1 pieces. */
  function SplitAll(s: string): (pieces: seq<string>)
    ensures |pieces| >= 1
    decreases |s|
  {
    if s == [] then [""]
    else
      var rest := SplitAll(s[1..]);
      if s[0] == ',' then [""] + rest
      else [[s[0]] + rest[0]] + rest[1..]
  }

  /** The pieces glued back together with one comma between neighbours. */
  function Join(pieces: seq<string>): (s: string)
    requires |pieces| >= 1
    decreases |pieces|
  {
    if |pieces| == 1 then pieces[0] else pieces[0] + "," + Join(pieces[1..])
  }

  /** Removes the empty strings at the end of `parts`, as a limit-0 split does. */
  function DropTrailingEmpty(parts: seq<string>): (kept: seq<string>)
    ensures kept <= parts
    ensures kept == [] || kept[|kept| - 1] != ""
    ensures forall i :: |kept| <= i < |parts| ==> parts[i] == ""
    decreases |parts|
  {
    if parts == [] then []
    else if parts[|parts| - 1] == "" then DropTrailingEmpty(parts[..|parts| - 1])
    else parts
  }

  /**
   * `s.split(",")`: without any comma the result is `s` itself (so "" gives [""]);
   * otherwise all pieces between commas, with the trailing empty ones dropped.
   */
  function Split(s: string): (tokens: seq<string>)
    ensures forall t :: t in tokens ==> ',' !in t
    ensures ',' !in s ==> tokens == [s]
    ensures ',' in s ==> tokens <= SplitAll(s)
    ensures ',' in s ==> tokens == [] || tokens[|tokens| - 1] != ""
    ensures ',' in s ==> forall i :: |tokens| <= i < |SplitAll(s)| ==> SplitAll(s)[i] == ""
  {
    SplitAllNoComma(s);
    if ',' !in s then [s] else DropTrailingEmpty(SplitAll(s))
  }

  /** Splitting loses nothing: the pieces joined with commas give back the input. */
  lemma {:induction false} SplitAllJoin(s: string)
    ensures Join(SplitAll(s)) == s
    decreases |s|
  {
    if s != [] {
      var rest := SplitAll(s[1..]);
      SplitAllJoin(s[1..]);
      if s[0] == ',' {
        assert ([""] + rest)[1..] == rest;
      } else if |rest| > 1 {
        var pieces := [[s[0]] + rest[0]] + rest[1..];
        assert pieces[1..] == rest[1..];
        assert Join(rest) == rest[0] + "," + Join(rest[1..]);
        assert s == [s[0]] + s[1..];
      } else {
        assert s == [s[0]] + s[1..];
      }
    }
  }

  /** No piece of a split holds a comma. */
  lemma {:induction false} SplitAllNoComma(s: string)
    ensures forall p :: p in SplitAll(s) ==> ',' !in p
    decreases |s|
  {
    if s != [] {
      SplitAllNoComma(s[1..]);
      var rest := SplitAll(s[1..]);
      if s[0] != ',' {
        assert ',' !in rest[0];
        forall p | p in [[s[0]] + rest[0]] + rest[1..] ensures ',' !in p {
          if p != [s[0]] + rest[0] {
            assert p in rest[1..];
          }
        }
      }
    }
  }

  /** A string without a comma is one piece. */
  lemma {:induction false} SplitAllWithoutComma(s: string)
    requires ',' !in s
    ensures SplitAll(s) == [s]
    decreases |s|
  {
    if s != [] {
      assert ',' !in s[1..];
      SplitAllWithoutComma(s[1..]);
      assert s == [s[0]] + s[1..];
    }
  }

  /** The edge cases of a limit-0 split: "" is one empty token, a lone comma gives none. */
  lemma SplitEdgeCases()
    ensures Split("") == [""]
    ensures Split(",") == []
    ensures Split("a,,") == ["a"]
    ensures Split(",a") == ["", "a"]
  {
    assert ","[1..] == "";
    assert SplitAll(",") == ["", ""];
    assert ",,"[1..] == ",";
    assert SplitAll(",,") == ["", "", ""];
    assert "a,,"[1..] == ",,";
    assert ['a'] + "" == "a" && ["", "", ""][1..] == ["", ""];
    assert SplitAll("a,,") == ["a", "", ""];
    assert ',' in "a,,";
    assert ["a", "", ""][..2] == ["a", ""] && ["a", ""][..1] == ["a"];
    assert "a"[1..] == "";
    assert SplitAll("a") == [['a'] + ""];
    assert ",a"[1..] == "a";
    assert SplitAll(",a") == ["", "a"];
    assert ',' in ",a";
  }

  // ---------------------------------------------------------------------
  // trim()
  // ---------------------------------------------------------------------

  /** `trim()` strips every character whose code is at most U+0020. */
  predicate IsTrimmed(c: char)
  {
    c <= ' '
  }

  /** Every character of `t` is one trim() removes. */
  ghost predicate Blank(t: string)
  {
    forall k :: 0 <= k < |t| ==> IsTrimmed(t[k])
  }

  /** Strips trimmable characters from the front. */
  function TrimStart(s: string): (r: string)
    decreases |s|
  {
    if s != [] && IsTrimmed(s[0]) then TrimStart(s[1..]) else s
  }

  /** Strips trimmable characters from the back. */
  function TrimEnd(s: string): (r: string)
    decreases |s|
  {
    if s != [] && IsTrimmed(s[|s| - 1]) then TrimEnd(s[..|s| - 1]) else s
  }

  /** TrimStart leaves a suffix, removes only trimmable characters, and stops at the first other one. */
  lemma {:induction false} TrimStartSpec(s: string)
    ensures var r := TrimStart(s);
      && |r| <= |s| && r == s[|s| - |r|..]
      && Blank(s[..|s| - |r|])
      && (r != [] ==> !IsTrimmed(r[0]))
    decreases |s|
  {
    if s != [] && IsTrimmed(s[0]) {
      TrimStartSpec(s[1..]);
      var r := TrimStart(s[1..]);
      assert s[1..][|s| - 1 - |r|..] == s[|s| - |r|..];
      assert s[..|s| - |r|] == [s[0]] + s[1..][..|s| - 1 - |r|];
    }
  }

  /** TrimEnd leaves a prefix, removes only trimmable characters, and stops at the last other one. */
  lemma {:induction false} TrimEndSpec(s: string)
    ensures var r := TrimEnd(s);
      && |r| <= |s| && r == s[..|r|]
      && Blank(s[|r|..])
      && (r != [] ==> !IsTrimmed(r[|r| - 1]))
    decreases |s|
  {
    if s != [] && IsTrimmed(s[|s| - 1]) {
      TrimEndSpec(s[..|s| - 1]);
      var r := TrimEnd(s[..|s| - 1]);
      assert s[..|s| - 1][..|r|] == s[..|r|];
      assert s[|r|..] == s[..|s| - 1][|r|..] + [s[|s| - 1]];
    }
  }

  /** `r` is the slice of `s` at offset `i`, with only trimmable characters around it. */
  ghost predicate TrimmedAt(s: string, i: int, r: string)
  {
    && 0 <= i && i + |r| <= |s|
    && r == s[i..i + |r|]
    && Blank(s[..i])
    && Blank(s[i + |r|..])
  }

  /** `s.trim()`. */
  function Trim(s: string): (r: string)
  {
    TrimEnd(TrimStart(s))
  }

  /** What trim() leaves: the slice of `s` between leading and trailing trimmable characters. */
  lemma TrimSpec(s: string)
    ensures exists i :: TrimmedAt(s, i, Trim(s))
    ensures Trim(s) == [] || (!IsTrimmed(Trim(s)[0]) && !IsTrimmed(Trim(s)[|Trim(s)| - 1]))
  {
    var front := TrimStart(s);
    var r := TrimEnd(front);
    TrimStartSpec(s);
    TrimEndSpec(front);
    var i := |s| - |front|;
    assert s[i..i + |r|] == r;
    assert front == s[i..];
    assert s[i..i + |r|] == front[..|r|];
    assert s[i + |r|..] == front[|r|..];
    assert Trim(s) == r;
    assert TrimmedAt(s, i, r);
    assert r != [] ==> r[0] == front[0];
  }

  /** One character of a blank string is trimmable. */
  lemma BlankAt(t: string, k: int)
    requires Blank(t) && 0 <= k < |t|
    ensures IsTrimmed(t[k])
  {
  }

  /** TrimSpec pins the result down: any slice with the same description is Trim(s). */
  lemma TrimUnique(s: string, i: int, r: string)
    requires TrimmedAt(s, i, r)
    requires r == [] || (!IsTrimmed(r[0]) && !IsTrimmed(r[|r| - 1]))
    ensures r == Trim(s)
  {
    var t := Trim(s);
    TrimSpec(s);
    var j :| TrimmedAt(s, j, t);
    if r != [] && t != [] {
      assert s[i] == r[0] && s[j] == t[0];
      if i < j {
        BlankAt(s[..j], i);
      } else if j < i {
        BlankAt(s[..i], j);
      }
      assert s[i + |r| - 1] == r[|r| - 1] && s[j + |t| - 1] == t[|t| - 1];
    } else if r == [] && t != [] {
      assert s[j] == t[0];
      if j < i {
        BlankAt(s[..i], j);
      }
    } else if r != [] && t == [] {
      assert s[i] == r[0];
      if i < j {
        BlankAt(s[..j], i);
      }
    }
  }

  /** Trimming twice is trimming once. */
  lemma TrimIdempotent(s: string)
    ensures Trim(Trim(s)) == Trim(s)
  {
    var t := Trim(s);
    TrimSpec(s);
    assert TrimmedAt(t, 0, t);
    TrimUnique(t, 0, t);
  }

  /** Surrounding blanks are what trim() removes: " ds0 " and "ds0" trim alike. */
  lemma TrimExample()
    ensures Trim(" ds0 ") == "ds0"
  {
    assert TrimmedAt(" ds0 ", 1, "ds0");
    TrimUnique(" ds0 ", 1, "ds0");
  }
}
