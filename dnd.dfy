/**
 * `on_drop` of the drag-and-drop test window: the drop string is stripped; when it is wrapped in
 * braces (the form Tk gives a list of paths containing spaces) it is split on "} {" and each
 * piece loses its braces, otherwise it is one path.  The label then lists each path's base name.
 */
module DropParsing {
  import opened Text

  predicate IsBrace(c: char)
  {
    c == '{' || c == '}'
  }

  predicate BraceFree(p: string)
  {
    forall k :: 0 <= k < |p| ==> !IsBrace(p[k])
  }

  /** Drops the braces at the front. */
  function TrimFront(s: string): (r: string)
    ensures |r| <= |s|
    ensures r == [] || !IsBrace(r[0])
  {
    if s != [] && IsBrace(s[0]) then TrimFront(s[1..]) else s
  }

  /** Drops the braces at the back. */
  function TrimBack(s: string): (r: string)
    ensures |r| <= |s|
    ensures r == [] || !IsBrace(r[|r| - 1])
    ensures r == s[..|r|]
  {
    if s != [] && IsBrace(s[|s| - 1]) then TrimBack(s[..|s| - 1]) else s
  }

  /** `p.strip('{}')`. */
  function StripBraces(p: string): (r: string)
    ensures r == [] || (!IsBrace(r[0]) && !IsBrace(r[|r| - 1]))
  {
    TrimBack(TrimFront(p))
  }

  /** Braces in front are skipped whatever follows. */
  lemma {:induction false} TrimFrontSkips(pre: string, rest: string)
    requires forall k :: 0 <= k < |pre| ==> IsBrace(pre[k])
    ensures TrimFront(pre + rest) == TrimFront(rest)
  {
    if pre != [] {
      assert (pre + rest)[1..] == pre[1..] + rest;
      TrimFrontSkips(pre[1..], rest);
    } else {
      assert pre + rest == rest;
    }
  }

  /** Braces at the back are skipped whatever precedes them. */
  lemma {:induction false} TrimBackSkips(rest: string, post: string)
    requires forall k :: 0 <= k < |post| ==> IsBrace(post[k])
    ensures TrimBack(rest + post) == TrimBack(rest)
    decreases |post|
  {
    if post != [] {
      var init := post[..|post| - 1];
      assert (rest + post)[..|rest + post| - 1] == rest + init;
      TrimBackSkips(rest, init);
    } else {
      assert rest + post == rest;
    }
  }

  /** A brace-free path wrapped in any braces comes back out of `strip('{}')`. */
  lemma StripWrapped(pre: string, p: string, post: string)
    requires forall k :: 0 <= k < |pre| ==> IsBrace(pre[k])
    requires forall k :: 0 <= k < |post| ==> IsBrace(post[k])
    requires BraceFree(p)
    ensures StripBraces(pre + p + post) == p
  {
    assert pre + p + post == pre + (p + post);
    TrimFrontSkips(pre, p + post);
    if p == [] {
      assert p + post == post;
      TrimFrontSkips(post, []);
      assert post + [] == post;
    } else {
      assert (p + post)[0] == p[0];
      TrimBackSkips(p, post);
    }
  }

  const Separator: string := "} {"

  /** The paths `on_drop` makes of a drop string; there is always at least one. */
  function ParseDrop(data: string): (files: seq<string>)
    ensures |files| >= 1
  {
    var dropped := Strip(data);
    if StartsWith(dropped, "{") && EndsWith(dropped, "}") then
      var pieces := Split(dropped, Separator);
      seq(|pieces|, k requires 0 <= k < |pieces| => StripBraces(pieces[k]))
    else
      [dropped]
  }

  /** Surrounding whitespace does not matter: the string is stripped first. */
  lemma ParseDropStrips(data: string)
    ensures ParseDrop(data) == ParseDrop(Strip(data))
  {
    StripIdempotent(data);
  }

  /** A drop string that, once stripped, is not wrapped in braces is the one stripped path. */
  lemma ParseDropPlain(data: string)
    requires var d := Strip(data); d == [] || d[0] != '{' || d[|d| - 1] != '}'
    ensures ParseDrop(data) == [Strip(data)]
  {
    ParseDropStrips(data);
    if Strip(data) != [] {
      StripIdempotent(data);
    }
  }

  /** In the braced form no path starts or ends with a brace. */
  lemma ParseDropBracedClean(data: string)
    requires StartsWith(Strip(data), "{") && EndsWith(Strip(data), "}")
    ensures forall k :: 0 <= k < |ParseDrop(data)| ==>
              ParseDrop(data)[k] == [] || (!IsBrace(ParseDrop(data)[k][0]) && !IsBrace(Last(ParseDrop(data)[k])))
  {
  }

  /** The pieces `split('} {')` cuts from a braced list of paths. */
  function BracedPieces(paths: seq<string>): (r: seq<string>)
    requires paths != []
    ensures |r| == |paths|
  {
    if |paths| == 1 then ["{" + paths[0] + "}"]
    else ["{" + paths[0]] + paths[1..|paths| - 1] + [paths[|paths| - 1] + "}"]
  }

  /** The braced drop string is the pieces joined by the separator. */
  lemma BracedJoin(paths: seq<string>)
    requires paths != []
    ensures "{" + Join(paths, Separator) + "}" == Join(BracedPieces(paths), Separator)
  {
    var pre := [("{" + paths[0])] + paths[1..];
    JoinPrefix("{", paths, Separator);
    JoinSuffix(pre, "}", Separator);
    if |paths| == 1 {
      assert pre == ["{" + paths[0]];
      assert pre[..0] + [pre[0] + "}"] == ["{" + paths[0] + "}"];
    } else {
      assert pre[..|pre| - 1] + [pre[|pre| - 1] + "}"] == BracedPieces(paths);
    }
  }

  /**
   * A text with no '{' after its first character, followed by one closing brace, does not
   * contain the separator.
   */
  lemma ClosedPieceClean(p: string)
    requires forall k :: 1 <= k < |p| ==> p[k] != '{'
    ensures !Contains(p + "}", Separator)
  {
    var s := p + "}";
    forall k | 0 <= k <= |s| ensures !OccursAt(s, Separator, k) {
      if k + 3 <= |s| {
        assert s[k + 2] != '{' by {
          if k + 2 < |p| {
            assert s[k + 2] == p[k + 2];
          }
        }
        assert s[k..k + 3][2] == s[k + 2];
      }
    }
  }

  /** Splitting the braced drop string on the separator cuts it into exactly its pieces. */
  lemma BracedSplit(paths: seq<string>)
    requires paths != []
    requires forall k :: 0 <= k < |paths| ==> BraceFree(paths[k])
    ensures Split(Join(BracedPieces(paths), Separator), Separator) == BracedPieces(paths)
  {
    var pieces := BracedPieces(paths);
    forall k | 0 <= k < |pieces| - 1 ensures '}' !in pieces[k] {
      if k == 0 {
        assert pieces[0] == "{" + paths[0];
        assert forall j :: 1 <= j < |pieces[0]| ==> pieces[0][j] == paths[0][j - 1];
      } else {
        assert pieces[k] == paths[k];
      }
    }
    if |paths| == 1 {
      var first := "{" + paths[0];
      assert pieces[0] == first + "}";
      assert forall j :: 1 <= j < |first| ==> first[j] == paths[0][j - 1];
      ClosedPieceClean(first);
    } else {
      ClosedPieceClean(paths[|paths| - 1]);
    }
    SplitJoin(pieces, Separator);
  }

  /** Each piece gives back its path once its braces are stripped. */
  lemma BracedPieceStrip(paths: seq<string>, k: nat)
    requires k < |paths| && BraceFree(paths[k])
    ensures StripBraces(BracedPieces(paths)[k]) == paths[k]
  {
    var piece := BracedPieces(paths)[k];
    if |paths| == 1 {
      StripWrapped("{", paths[0], "}");
    } else if k == 0 {
      StripWrapped("{", paths[0], "");
      assert "{" + paths[0] + "" == piece;
    } else if k == |paths| - 1 {
      StripWrapped("", paths[k], "}");
      assert "" + paths[k] + "}" == piece;
    } else {
      StripWrapped("", paths[k], "");
      assert "" + paths[k] + "" == piece;
    }
  }

  /** A text wrapped in braces is left alone by `strip()` and passes the brace test. */
  lemma WrappedInBraces(inner: string)
    ensures Strip("{" + inner + "}") == "{" + inner + "}"
    ensures StartsWith("{" + inner + "}", "{") && EndsWith("{" + inner + "}", "}")
  {
    var data := "{" + inner + "}";
    StripUnchanged(data);
    assert data[..1] == "{";
    assert data[|data| - 1..] == "}";
  }

  /** The braced drop string splits into exactly its pieces. */
  lemma BracedDataSplit(paths: seq<string>)
    requires paths != []
    requires forall k :: 0 <= k < |paths| ==> BraceFree(paths[k])
    ensures Split("{" + Join(paths, Separator) + "}", Separator) == BracedPieces(paths)
  {
    BracedJoin(paths);
    BracedSplit(paths);
  }

  /** A drop string in braced form parses to its pieces with their braces stripped. */
  lemma ParseDropPieces(data: string)
    requires Strip(data) == data && StartsWith(data, "{") && EndsWith(data, "}")
    ensures |ParseDrop(data)| == |Split(data, Separator)|
    ensures forall k :: 0 <= k < |ParseDrop(data)| ==> ParseDrop(data)[k] == StripBraces(Split(data, Separator)[k])
  {
  }

  /**
   * Dropping brace-free paths in the braced form gives back exactly those paths, in order:
   * `"{a} {b c} {d}"` parses to `["a", "b c", "d"]`.
   */
  lemma ParseDropBraced(paths: seq<string>)
    requires paths != []
    requires forall k :: 0 <= k < |paths| ==> BraceFree(paths[k])
    ensures ParseDrop("{" + Join(paths, Separator) + "}") == paths
  {
    var data := "{" + Join(paths, Separator) + "}";
    WrappedInBraces(Join(paths, Separator));
    BracedDataSplit(paths);
    ParseDropPieces(data);
    var files := ParseDrop(data);
    forall k | 0 <= k < |paths| ensures files[k] == paths[k] {
      BracedPieceStrip(paths, k);
    }
  }

  /** The base name of each file, in order. */
  function Basenames(files: seq<string>): (r: seq<string>)
    ensures |r| == |files| && forall k :: 0 <= k < |files| ==> r[k] == Basename(files[k])
  {
    seq(|files|, k requires 0 <= k < |files| => Basename(files[k]))
  }

  /** The label: "Dropped:" and, on the next line, the base names joined by ", ". */
  function DropLabel(files: seq<string>): string
  {
    "Dropped:\n" + Join(Basenames(files), ", ")
  }

  /**
   * The label reads back: below "Dropped:", splitting on ", " gives the base names in order,
   * provided no base name but the last has a comma and the last has no ", ".
   */
  lemma DropLabelNames(files: seq<string>)
    requires files != []
    requires forall k :: 0 <= k < |files| - 1 ==> ',' !in Basename(files[k])
    requires !Contains(Basename(files[|files| - 1]), ", ")
    ensures |DropLabel(files)| >= 9 && DropLabel(files)[..9] == "Dropped:\n"
    ensures Split(DropLabel(files)[9..], ", ") == Basenames(files)
  {
    var names := Basenames(files);
    var joined := Join(names, ", ");
    assert ("Dropped:\n" + joined)[9..] == joined;
    SplitJoin(names, ", ");
  }

  /** A single dropped file is labelled with its base name, which has no '/' in it. */
  lemma DropLabelSingle(path: string)
    ensures DropLabel([path]) == "Dropped:\n" + Basename(path)
    ensures '/' !in Basename(path)
  {
    assert seq(1, k requires 0 <= k < 1 => Basename([path][k])) == [Basename(path)];
    BasenameSpec(path);
  }

  /** The label lists the base names in the order the files were parsed. */
  lemma DropLabelCons(path: string, rest: seq<string>)
    requires rest != []
    ensures DropLabel([path] + rest) == DropLabel([path]) + ", " + Join(
              seq(|rest|, k requires 0 <= k < |rest| => Basename(rest[k])), ", ")
  {
    var all := [path] + rest;
    var names := seq(|all|, k requires 0 <= k < |all| => Basename(all[k]));
    var tail := seq(|rest|, k requires 0 <= k < |rest| => Basename(rest[k]));
    assert names == [Basename(path)] + tail;
    JoinCons(Basename(path), tail, ", ");
    DropLabelSingle(path);
  }
}
