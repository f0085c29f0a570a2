/** One line of morphological-analyser output, `surface<TAB>f0,f1,...`,
    parsed into its surface form, part of speech, inflection and readings. */
module MecabNodes {
  import opened Wrappers
  import opened Strings

  datatype MecabNode = MecabNode(
    surface: string,
    pos: string,
    inflectionGroup: string,
    inflectionType: string,
    baseForm: string,
    reading: string,
    pronunciation: string)

  /** `feature.replace("*", "")`: the feature with every '*' deleted and
      every other character kept, in order. */
  function Unstarred(feature: string): (r: string)
    ensures r == RemoveChar(feature, '*')
    ensures '*' !in r
    ensures forall i :: 0 <= i < |r| ==> r[i] in feature
  {
    ReplaceCharIsRemoveChar(feature, '*');
    Replace(feature, "*", "")
  }

  /** The optional feature `k`, or "" when the line has `k` features or fewer. */
  function Optional(features: seq<string>, k: nat): string
  {
    if |features| >= k + 1 then Unstarred(features[k]) else ""
  }

  /** The part of speech: the first four features joined with '.', with
      every ".*" deleted, so every character other than '.' comes from one
      of the first four features. */
  function Pos(features: seq<string>): (r: string)
    ensures forall c :: c in r && c != '.' ==> exists k :: 0 <= k < |features| && k < 4 && c in features[k]
  {
    var p := features[..if |features| < 4 then |features| else 4];
    var r := Replace(Join(p, "."), ".*", "");
    assert forall c :: c in r && c != '.' ==> exists k :: 0 <= k < |features| && k < 4 && c in features[k] by {
      forall c | c in r && c != '.'
        ensures exists k :: 0 <= k < |features| && k < 4 && c in features[k]
      {
        if forall k :: 0 <= k < |p| ==> c !in p[k] {
          JoinAvoids(p, ".", c);
        } else {
          var k :| 0 <= k < |p| && c in p[k];
          assert p[k] == features[k];
        }
      }
    }
    r
  }

  /** `MecabNode(line)`: the surface is the text before the first tab; the
      features are the second tab field split on ','. A line without a tab,
      or with fewer than six features, raises IndexError. */
  function ParseNode(line: string): (r: Result<MecabNode>)
    ensures r.Err? <==> |Split(line, '\t')| < 2 || |Split(Split(line, '\t')[1], ',')| < 6
    ensures r.Err? ==> r.error == IndexError
    ensures r.Ok? ==> r.value.surface == Split(line, '\t')[0] && '\t' !in r.value.surface
  {
    var fields := Split(line, '\t');
    if |fields| < 2 then Err(IndexError)
    else
      var features := Split(fields[1], ',');
      if |features| < 6 then Err(IndexError)
      else
        Ok(MecabNode(fields[0], Pos(features), Unstarred(features[4]), Unstarred(features[5]),
                     Optional(features, 6), Optional(features, 7), Optional(features, 8)))
  }

  /** `repr(node)`: the seven fields joined by ',' in declaration order; it
      starts with the surface and a ',', and every other character is a ','
      or comes from a field. */
  function Repr(n: MecabNode): (r: string)
    ensures |n.surface| < |r| && r[..|n.surface| + 1] == n.surface + ","
    ensures forall c :: c in r && c != ',' ==>
              c in n.surface || c in n.pos || c in n.inflectionGroup || c in n.inflectionType ||
              c in n.baseForm || c in n.reading || c in n.pronunciation
  {
    var fs := [n.surface, n.pos, n.inflectionGroup, n.inflectionType, n.baseForm, n.reading, n.pronunciation];
    var r := Join(fs, ",");
    assert r == n.surface + "," + Join(fs[1..], ",");
    assert forall c :: c in r && c != ',' ==>
             c in n.surface || c in n.pos || c in n.inflectionGroup || c in n.inflectionType ||
             c in n.baseForm || c in n.reading || c in n.pronunciation by {
      forall c | c in r && c != ','
        ensures c in n.surface || c in n.pos || c in n.inflectionGroup || c in n.inflectionType ||
                c in n.baseForm || c in n.reading || c in n.pronunciation
      {
        if forall k :: 0 <= k < |fs| ==> c !in fs[k] {
          JoinAvoids(fs, ",", c);
        }
      }
    }
    r
  }

  /** A line without a tab has no feature field and raises IndexError. */
  lemma ParseNodeWithoutTab(line: string)
    requires '\t' !in line
    ensures ParseNode(line) == Err(IndexError)
  {
    SplitWithoutSeparator(line, '\t');
  }

  /** Parsing a line built from a surface, a feature list and further tab
      fields gives back the surface and the features, the further fields
      ignored; six features are enough, and the readings missing from a
      shorter list come out empty. */
  lemma ParseNodeOfLine(surface: string, features: seq<string>, extra: seq<string>)
    requires '\t' !in surface
    requires |features| >= 6
    requires forall i :: 0 <= i < |features| ==> '\t' !in features[i] && ',' !in features[i]
    requires forall i :: 0 <= i < |extra| ==> '\t' !in extra[i]
    ensures var r := ParseNode(Join([surface, Join(features, ",")] + extra, "\t"));
      && r.Ok?
      && r.value.surface == surface
      && r.value.pos == Pos(features)
      && r.value.inflectionGroup == Unstarred(features[4])
      && r.value.inflectionType == Unstarred(features[5])
      && r.value.baseForm == (if |features| >= 7 then Unstarred(features[6]) else "")
      && r.value.reading == (if |features| >= 8 then Unstarred(features[7]) else "")
      && r.value.pronunciation == (if |features| >= 9 then Unstarred(features[8]) else "")
  {
    var joined := Join(features, ",");
    JoinAvoids(features, ",", '\t');
    var parts := [surface, joined] + extra;
    SplitJoin(parts, '\t');
    SplitJoin(features, ',');
  }

  /** When no feature of the first four holds '*', the part of speech is
      those features joined with '.'. */
  lemma PosWithoutStars(features: seq<string>)
    requires forall k :: 0 <= k < |features| && k < 4 ==> '*' !in features[k]
    ensures Pos(features) == Join(features[..if |features| < 4 then |features| else 4], ".")
  {
    var p := features[..if |features| < 4 then |features| else 4];
    JoinAvoids(p, ".", '*');
    ReplaceAbsent(Join(p, "."), ".*", "");
  }

  /** A part-of-speech level as the analyser writes it: either "*" (no
      further classification) or a name with no '*' and no '.'. */
  predicate Level(f: string)
  {
    f == "*" || ('*' !in f && '.' !in f)
  }

  /** Deleting ".*" from the levels after the first, each written after a '.',
      drops exactly the "*" levels. */
  lemma {:induction false} DropStarredAfterDots(q: seq<string>)
    requires forall k :: 0 <= k < |q| ==> Level(q[k])
    ensures Replace(Prefixed(q, "."), ".*", "") == Prefixed(RemoveChar(q, "*"), ".")
  {
    if q != [] {
      DropStarredAfterDots(q[1..]);
      if q[0] == "*" {
        DropFirstLevel(q);
      } else {
        KeepFirstLevel(q);
      }
    }
  }

  lemma DropFirstLevel(q: seq<string>)
    requires q != [] && q[0] == "*"
    ensures Replace(Prefixed(q, "."), ".*", "") == Replace(Prefixed(q[1..], "."), ".*", "")
    ensures RemoveChar(q, "*") == RemoveChar(q[1..], "*")
  {
    assert Prefixed(q, ".") == ".*" + Prefixed(q[1..], ".");
    ReplaceFront(".*", Prefixed(q[1..], "."), "");
  }

  lemma KeepFirstLevel(q: seq<string>)
    requires q != [] && q[0] != "*" && Level(q[0])
    ensures Replace(Prefixed(q, "."), ".*", "") == "." + q[0] + Replace(Prefixed(q[1..], "."), ".*", "")
    ensures Prefixed(RemoveChar(q, "*"), ".") == "." + q[0] + Prefixed(RemoveChar(q[1..], "*"), ".")
  {
    var rest := Prefixed(q[1..], ".");
    assert Prefixed(q, ".") == "." + q[0] + rest;
    assert RemoveChar(q, "*") == [q[0]] + RemoveChar(q[1..], "*");
    assert ([q[0]] + RemoveChar(q[1..], "*"))[1..] == RemoveChar(q[1..], "*");
    SkipLevel(q[0], rest);
  }

  /** A '.' followed by a level other than "*" is kept, when what follows
      it is empty or starts with the next '.'. */
  lemma SkipLevel(f: string, y: string)
    requires '*' !in f && '.' !in f
    requires y == [] || y[0] == '.'
    ensures Replace("." + f + y, ".*", "") == "." + f + Replace(y, ".*", "")
  {
    if f != [] {
      ReplaceSkipPair("." + f, y, ".*", "");
      assert ("." + f)[|"." + f| - 1] == f[|f| - 1];
    } else {
      var s := "." + f + y;
      assert s == "." + y;
      if |s| >= 2 {
        assert s[..2] != ".*" by { assert s[..2][1] == y[0]; }
        assert s[1..] == y;
      }
    }
  }

  /** The part of speech keeps the levels among the first four features that
      are not "*", joined with '.': "助詞,格助詞,一般,*" gives "助詞.格助詞.一般",
      "助動詞,*,*,*" gives "助動詞". */
  lemma PosDropsStarredLevels(features: seq<string>)
    requires |features| >= 1 && features[0] != "*"
    requires forall k :: 0 <= k < |features| && k < 4 ==> Level(features[k])
    ensures Pos(features) == Join(RemoveChar(features[..if |features| < 4 then |features| else 4], "*"), ".")
  {
    var p := features[..if |features| < 4 then |features| else 4];
    assert p[0] == features[0];
    JoinPrefixed(p, ".");
    DropStarredAfterDots(p[1..]);
    ReplaceSkipPair(p[0], Prefixed(p[1..], "."), ".*", "");
    assert p == [p[0]] + p[1..];
    assert RemoveChar(p, "*") == [p[0]] + RemoveChar(p[1..], "*");
    JoinPrefixed(RemoveChar(p, "*"), ".");
  }

  /** Two starred trailing levels, as in a plain noun's "名詞,一般,*,*",
      are dropped from the part of speech together with their dots. */
  lemma PosOfStarredLevels(a: string, b: string, rest: seq<string>)
    requires '.' !in a && '*' !in a && '.' !in b && '*' !in b && b != []
    ensures Pos([a, b, "*", "*"] + rest) == a + "." + b
  {
    var f := [a, b, "*", "*"] + rest;
    assert f[..4] == [a, b, "*", "*"];
    var p := f[..4];
    assert p[1..] == [b, "*", "*"] && p[1..][1..] == ["*", "*"] && p[1..][1..][1..] == ["*"];
    var x := a + "." + b;
    assert Join(["*"], ".") == "*";
    assert Join(["*", "*"], ".") == "*" + "." + "*";
    assert Join([b, "*", "*"], ".") == b + "." + ("*" + "." + "*");
    assert Join(p, ".") == a + "." + (b + "." + ("*" + "." + "*"));
    assert a + "." + (b + "." + ("*" + "." + "*")) == x + (".*" + ".*");
    assert x[|x| - 1] == b[|b| - 1];
    ReplaceSkipPair(x, ".*" + ".*", ".*", "");
    ReplaceFront(".*", ".*", "");
    ReplaceFront(".*", "", "");
    assert ".*" + "" == ".*";
  }

  /** The seven fields of a parsed node hold no ',' once the surface holds
      none, so the repr splits back into exactly those fields. */
  lemma ReprSplits(line: string)
    requires ParseNode(line).Ok?
    requires ',' !in ParseNode(line).value.surface
    ensures var n := ParseNode(line).value;
      Split(Repr(n), ',') == [n.surface, n.pos, n.inflectionGroup, n.inflectionType, n.baseForm, n.reading, n.pronunciation]
  {
    var n := ParseNode(line).value;
    var features := Split(Split(line, '\t')[1], ',');
    var p := features[..if |features| < 4 then |features| else 4];
    JoinAvoids(p, ".", ',');
    var fs := [n.surface, n.pos, n.inflectionGroup, n.inflectionType, n.baseForm, n.reading, n.pronunciation];
    forall i | 0 <= i < |fs| ensures ',' !in fs[i] {
    }
    SplitJoin(fs, ',');
  }
}
