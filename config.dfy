/** Reading the layer configuration (getLayerModules): the file's content,
    with Windows line endings normalised, split into one layer per line. */
module Config {
  import opened GoStrings

  /** strings.ReplaceAll(content, "\r\n", "\n"). */
  function NormalizeNewlines(s: string): (normalized: string) {
    ReplaceAll(s, "\r\n", "\n")
  }

  /** The layer names, in the order of the configuration lines. Empty lines,
      including the one after a final line feed, are layers too. */
  function LayerModules(content: string): (layers: seq<string>)
    ensures |layers| == Count(content, '\n') + 1
    ensures forall i :: 0 <= i < |layers| ==> '\n' !in layers[i]
    ensures Join(layers, '\n') == NormalizeNewlines(content)
  {
    NormalizeKeepsLineFeeds(content);
    JoinSplit(NormalizeNewlines(content), '\n');
    Split(NormalizeNewlines(content), '\n')
  }

  /** Normalisation neither adds nor removes a line feed. */
  lemma {:induction false} NormalizeKeepsLineFeeds(s: string)
    ensures Count(NormalizeNewlines(s), '\n') == Count(s, '\n')
    decreases |s|
  {
    if |s| >= 2 {
      var t := NormalizeNewlines(s[1..]);
      if "\r\n" <= s {
        NormalizeKeepsLineFeeds(s[2..]);
        assert s[1..][1..] == s[2..];
        assert NormalizeNewlines(s) == "\n" + NormalizeNewlines(s[2..]);
        assert ("\n" + NormalizeNewlines(s[2..]))[1..] == NormalizeNewlines(s[2..]);
      } else {
        NormalizeKeepsLineFeeds(s[1..]);
        assert NormalizeNewlines(s) == [s[0]] + t;
        assert ([s[0]] + t)[1..] == t;
      }
    }
  }

  /** Where the normalised content starts with a line feed. */
  lemma NormalizeStartsWithLf(s: string)
    ensures (NormalizeNewlines(s) != [] && NormalizeNewlines(s)[0] == '\n')
            <==> (s != [] && (s[0] == '\n' || "\r\n" <= s))
  {
  }

  /** A CR LF pair is left in the normalised content exactly where the
      content held CR CR LF: the first CR is kept, the CR LF after it
      becomes the line feed. */
  lemma {:induction false} CrlfSurvivesOnlyAfterCr(s: string)
    ensures Contains(NormalizeNewlines(s), "\r\n") <==> Contains(s, "\r\r\n")
    decreases |s|
  {
    if |s| < 2 {
      ContainsNeedsRoom(s, "\r\n");
      ContainsNeedsRoom(s, "\r\r\n");
    } else if "\r\n" <= s {
      var t := NormalizeNewlines(s[2..]);
      CrlfSurvivesOnlyAfterCr(s[2..]);
      assert NormalizeNewlines(s) == "\n" + t;
      assert ("\n" + t)[1..] == t;
      assert ("\n" + t)[0] == '\n' && "\r\n"[0] == '\r';
      assert !("\r\n" <= "\n" + t);
      assert Contains(NormalizeNewlines(s), "\r\n") <==> Contains(t, "\r\n");
      assert s[1..][1..] == s[2..];
      assert s[1] == "\r\n"[1] == '\n' && "\r\r\n"[1] == '\r';
      assert !("\r\r\n" <= s) && !("\r\r\n" <= s[1..]);
      assert Contains(s[1..], "\r\r\n") <==> Contains(s[2..], "\r\r\n");
    } else {
      var t := NormalizeNewlines(s[1..]);
      CrlfSurvivesOnlyAfterCr(s[1..]);
      NormalizeStartsWithLf(s[1..]);
      assert NormalizeNewlines(s) == [s[0]] + t;
      assert ([s[0]] + t)[1..] == t;
      assert "\r\n" <= [s[0]] + t <==> s[0] == '\r' && t != [] && t[0] == '\n';
      assert "\r\r\n" <= s <==> s[0] == '\r' && "\r\n" <= s[1..];
    }
  }

  /** So normalised content can still hold a CR LF pair. */
  lemma CrlfCanSurvive()
    ensures NormalizeNewlines("\r\r\n") == "\r\n"
  {
  }

  /** Content without a carriage return is left as it is. */
  lemma {:induction false} NormalizeWithoutCr(s: string)
    requires '\r' !in s
    ensures NormalizeNewlines(s) == s
    decreases |s|
  {
    if |s| >= 2 {
      NormalizeWithoutCr(s[1..]);
      assert [s[0]] + s[1..] == s;
    }
  }

  /** Content that ends in a line feed still does after normalisation. */
  lemma {:induction false} NormalizeKeepsFinalLf(s: string)
    requires s != [] && s[|s| - 1] == '\n'
    ensures NormalizeNewlines(s) != [] && NormalizeNewlines(s)[|NormalizeNewlines(s)| - 1] == '\n'
    decreases |s|
  {
    if |s| >= 2 {
      if "\r\n" <= s {
        assert NormalizeNewlines(s) == "\n" + NormalizeNewlines(s[2..]);
        if |s| > 2 {
          assert s[2..][|s[2..]| - 1] == '\n';
          NormalizeKeepsFinalLf(s[2..]);
        }
      } else {
        assert s[1..][|s[1..]| - 1] == '\n';
        NormalizeKeepsFinalLf(s[1..]);
      }
    }
  }

  /** A configuration that ends in a line feed has an empty last layer, and
      that layer counts: one named layer and a final line feed already make
      two layers. */
  lemma TrailingLineFeedAddsEmptyLayer(content: string)
    requires HasSuffix(content, "\n")
    ensures |LayerModules(content)| >= 2
    ensures LayerModules(content)[|LayerModules(content)| - 1] == ""
  {
    var s := content[..|content| - 1];
    assert content == s + "\n";
    CountConcat(s, "\n", '\n');
    NormalizeKeepsFinalLf(content);
    SplitEndsEmpty(NormalizeNewlines(content), '\n');
  }

  /** Lines without line breaks, joined by line feeds, read back as the
      same layers. */
  lemma LayersOfLines(lines: seq<string>)
    requires |lines| >= 1
    requires forall i :: 0 <= i < |lines| ==> '\n' !in lines[i] && '\r' !in lines[i]
    ensures LayerModules(Join(lines, '\n')) == lines
  {
    JoinHasNoCr(lines);
    NormalizeWithoutCr(Join(lines, '\n'));
    SplitJoin(lines, '\n');
  }

  lemma {:induction false} JoinHasNoCr(lines: seq<string>)
    requires forall i :: 0 <= i < |lines| ==> '\r' !in lines[i]
    ensures '\r' !in Join(lines, '\n')
    decreases |lines|
  {
    if |lines| > 1 {
      JoinHasNoCr(lines[1..]);
    }
  }
}
