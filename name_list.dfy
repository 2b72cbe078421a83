/**
 * Resolution of the `sharding.jdbc.datasource.names` value into data source
 * names: split on commas, hand each raw token to the inline-expression
 * expander, and concatenate the expansions in order.
 */
module NameList {
  import opened JavaStrings

  /** The expansions of the tokens, one after the other, in token order. */
  function ConcatMap(expand: string -> seq<string>, tokens: seq<string>): (names: seq<string>)
    decreases |tokens|
  {
    if tokens == [] then [] else expand(tokens[0]) + ConcatMap(expand, tokens[1..])
  }

  /** The names the configuration denotes: every comma-separated token, expanded untrimmed. */
  function ResolvedNames(dataSources: string, expand: string -> seq<string>): (names: seq<string>)
  {
    ConcatMap(expand, Split(dataSources))
  }

  /** Appending a token appends its expansion. */
  lemma {:induction false} ConcatMapSnoc(expand: string -> seq<string>, tokens: seq<string>, t: string)
    ensures ConcatMap(expand, tokens + [t]) == ConcatMap(expand, tokens) + expand(t)
    decreases |tokens|
  {
    if tokens == [] {
      assert ([] + [t])[1..] == [];
    } else {
      assert (tokens + [t])[1..] == tokens[1..] + [t];
      ConcatMapSnoc(expand, tokens[1..], t);
    }
  }

  /** A name is resolved exactly when some token's expansion holds it. */
  lemma {:induction false} ConcatMapMember(expand: string -> seq<string>, tokens: seq<string>, name: string)
    ensures name in ConcatMap(expand, tokens) <==> exists i :: 0 <= i < |tokens| && name in expand(tokens[i])
    decreases |tokens|
  {
    if tokens != [] {
      ConcatMapMember(expand, tokens[1..], name);
      if name in ConcatMap(expand, tokens[1..]) {
        var i :| 0 <= i < |tokens[1..]| && name in expand(tokens[1..][i]);
        assert name in expand(tokens[i + 1]);
      }
      if exists i :: 0 <= i < |tokens| && name in expand(tokens[i]) {
        var i :| 0 <= i < |tokens| && name in expand(tokens[i]);
        if i > 0 {
          assert tokens[1..][i - 1] == tokens[i];
        }
      }
    }
  }

  /** Tokens the expander leaves as they are (plain literals) resolve to themselves. */
  lemma {:induction false} ConcatMapLiteral(expand: string -> seq<string>, tokens: seq<string>)
    requires forall i :: 0 <= i < |tokens| ==> expand(tokens[i]) == [tokens[i]]
    ensures ConcatMap(expand, tokens) == tokens
    decreases |tokens|
  {
    if tokens != [] {
      ConcatMapLiteral(expand, tokens[1..]);
    }
  }

  /** `getDataSourceNames`: the for loop over the split tokens with `addAll`. */
  method GetDataSourceNames(dataSources: string, expand: string -> seq<string>) returns (names: seq<string>)
    ensures names == ResolvedNames(dataSources, expand)
    ensures forall n :: n in names <==> exists t :: t in Split(dataSources) && n in expand(t)
  {
    var tokens := Split(dataSources);
    names := [];
    for i := 0 to |tokens|
      invariant names == ConcatMap(expand, tokens[..i])
    {
      ConcatMapSnoc(expand, tokens[..i], tokens[i]);
      assert tokens[..i + 1] == tokens[..i] + [tokens[i]];
      names := names + expand(tokens[i]);
    }
    assert tokens[..|tokens|] == tokens;
    forall n ensures n in names <==> exists t :: t in tokens && n in expand(t) {
      ConcatMapMember(expand, tokens, n);
    }
  }
}
