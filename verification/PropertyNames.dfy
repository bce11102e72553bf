/**
 The names under which a keyframe object gives property values (src/bindings/Animations.cpp): the CSS name an attribute name
 stands for and back, and the properties read from an object's keys. Texts are UTF-8 bytes there, ordered as code points are.
 */
module PropertyNames {
  import opened Wrappers
  import opened Keyframes

  predicate Small(c: char) { 'a' <= c <= 'z' }

  predicate Capital(c: char) { 'A' <= c <= 'Z' }

  function Lowered(c: char): (r: char)
    requires Capital(c)
    ensures Small(r)
  {
    (c as int - 'A' as int + 'a' as int) as char
  }

  function Raised(c: char): char {
    if Small(c) then (c as int - 'a' as int + 'A' as int) as char else c
  }

  predicate Starts(s: string, prefix: string) { |prefix| <= |s| && s[..|prefix|] == prefix }

  predicate Dashless(s: string) { forall i :: 0 <= i < |s| ==> s[i] != '-' }

  /** `webkit` and a capital. */
  predicate Webkit(idl: string) { Starts(idl, "webkit") && |idl| > 6 && Capital(idl[6]) }

  /** A dash before each capital, which becomes small. */
  function Dashed(s: string): string {
    if s == "" then "" else (if Capital(s[0]) then ['-', Lowered(s[0])] else [s[0]]) + Dashed(s[1..])
  }

  /** Dashes taken out, and the letter after each raised. */
  function Joined(s: string, raise: bool): string {
    if s == "" then ""
    else if s[0] == '-' then Joined(s[1..], true)
    else [if raise then Raised(s[0]) else s[0]] + Joined(s[1..], false)
  }

  /** `css_name` */
  function Css(idl: string): Option<string> {
    if Starts(idl, "--") then Some(idl)
    else if idl == "cssFloat" then Some("float")
    else if idl == "cssOffset" then Some("offset")
    else if idl == "" || !Dashless(idl) || Capital(idl[0]) || idl == "float" || idl == "offset" then None
    else if Webkit(idl) then Some("-webkit" + Dashed(idl[6..]))
    else Some(Dashed(idl))
  }

  /** `idl_name` */
  function Idl(css: string): string {
    if Starts(css, "--") then css
    else if css == "float" then "cssFloat"
    else if css == "offset" then "cssOffset"
    else if Starts(css, "-webkit-") then "webkit" + Joined(css[7..], false)
    else Joined(css, false)
  }

  method CssName(idl: string) returns (css: Option<string>)
    ensures css == Css(idl)
  {
    if Starts(idl, "--") {
      return Some(idl);
    }
    if idl == "cssFloat" {
      return Some("float");
    }
    if idl == "cssOffset" {
      return Some("offset");
    }
    if idl == "" || !Dashless(idl) || Capital(idl[0]) {
      return None;
    }
    if idl == "float" || idl == "offset" {
      return None;
    }
    var out, rest := "", idl;
    if Webkit(idl) {
      out, rest := "-webkit", idl[6..];
    }
    ghost var all := out + Dashed(rest);
    hide Starts, Dashless, Capital, Css, Dashed;
    for i := 0 to |rest|
      invariant out + Dashed(rest[i..]) == all
    {
      DashedStep(out, rest, i);
      if Capital(rest[i]) {
        out := out + ['-'];
        out := out + [Lowered(rest[i])];
      } else {
        out := out + [rest[i]];
      }
    }
    DashedNone();
    assert rest[|rest|..] == "" && out + "" == out;
    css := Some(out);
    CssAtEnd(idl);
  }

  lemma DashedStep(out: string, s: string, i: nat)
    requires i < |s|
    ensures out + Dashed(s[i..])
         == (if Capital(s[i]) then out + ['-'] + [Lowered(s[i])] else out + [s[i]]) + Dashed(s[i + 1..])
  {
    assert s[i..][1..] == s[i + 1..];
    DashedFirst(s[i..]);
    hide Dashed;
  }

  lemma CssAtEnd(idl: string)
    requires !Starts(idl, "--") && idl != "cssFloat" && idl != "cssOffset" && idl != "" && Dashless(idl) && !Capital(idl[0])
    requires idl != "float" && idl != "offset"
    ensures Css(idl) == Some(if Webkit(idl) then "-webkit" + Dashed(idl[6..])
                             else "" + Dashed(idl))
  {
    assert "" + Dashed(idl) == Dashed(idl);
    hide Starts, Dashless, Capital, Dashed;
  }

  lemma DashedNone()
    ensures Dashed("") == ""
  {
  }

  lemma DashedFirst(s: string)
    requires s != ""
    ensures Dashed(s) == (if Capital(s[0]) then ['-', Lowered(s[0])] else [s[0]]) + Dashed(s[1..])
  {
  }

  method IdlName(css: string) returns (idl: string)
    ensures idl == Idl(css)
  {
    if Starts(css, "--") {
      return css;
    }
    if css == "float" {
      return "cssFloat";
    }
    if css == "offset" {
      return "cssOffset";
    }
    idl := "";
    if Starts(css, "-webkit-") {
      idl := "webkit";
    }
    var rest := if idl == "" then css else css[7..];
    IdlAtEnd(css);
    hide *;
    var raise := false;
    for i := 0 to |rest|
      invariant idl + Joined(rest[i..], raise) == Idl(css)
    {
      JoinedStep(idl, rest, i, raise);
      if rest[i] == '-' {
        raise := true;
      } else {
        idl := idl + [if raise then Raised(rest[i]) else rest[i]];
        raise := false;
      }
    }
    JoinedNone(raise);
    assert rest[|rest|..] == "" && idl + "" == idl;
  }

  lemma JoinedStep(idl: string, s: string, i: nat, raise: bool)
    requires i < |s|
    ensures idl + Joined(s[i..], raise) == if s[i] == '-' then idl + Joined(s[i + 1..], true)
                                           else (idl + [if raise then Raised(s[i]) else s[i]]) + Joined(s[i + 1..], false)
  {
    assert s[i..][1..] == s[i + 1..];
    JoinedFirst(s[i..], raise);
    hide Joined;
  }

  lemma IdlAtEnd(css: string)
    requires !Starts(css, "--") && css != "float" && css != "offset"
    ensures Starts(css, "-webkit-") ==> Idl(css) == "webkit" + Joined(css[7..], false)
    ensures !Starts(css, "-webkit-") ==> Idl(css) == "" + Joined(css[0..], false)
  {
    assert css[0..] == css && "" + Joined(css, false) == Joined(css, false);
    hide Joined;
  }

  lemma JoinedNone(raise: bool)
    ensures Joined("", raise) == ""
  {
  }

  lemma JoinedFirst(s: string, raise: bool)
    requires s != ""
    ensures Joined(s, raise) == if s[0] == '-' then Joined(s[1..], true)
                                else [if raise then Raised(s[0]) else s[0]] + Joined(s[1..], false)
  {
  }

  // ---- Letter by letter ------------------------------------------------------------------------

  /** Texts are dashed piece by piece, down to letters: a capital, 32 below its small letter, gives a dash and that. */
  lemma {:induction false} DashedExactly(a: string, b: string)
    ensures Dashed(a + b) == Dashed(a) + Dashed(b)
    ensures |a| == 1 ==> Dashed(a) == if 'A' <= a[0] <= 'Z' then ['-', (a[0] as int + 32) as char] else a
    decreases |a|
  {
    if a == "" {
      assert a + b == b;
    } else {
      assert (a + b)[0] == a[0] && (a + b)[1..] == a[1..] + b;
      DashedExactly(a[1..], b);
      assert |a| == 1 ==> a[1..] == "" && a == [a[0]];
    }
  }

  /** The two names that are other words, and those that no attribute has. */
  lemma RenamedNames()
    ensures Css("cssFloat") == Some("float") && Css("cssOffset") == Some("offset") && Css("float") == None && Css("offset") == None
    ensures Css("") == None && Css("Top") == None && Css("z-index") == None && Css("--my-Name") == Some("--my-Name")
  {
    var s, t := "z-index", "Top";
    assert s[1] == '-' && s[0] == 'z' && s != "cssFloat" && s != "cssOffset";
    assert t[0] == 'T' && t != "cssFloat" && t != "cssOffset";
    assert !Dashless(s) && Capital(t[0]);
    assert "--my-Name"[..2] == "--";
    var f, o, g, q := "cssFloat", "cssOffset", "float", "offset";
    assert f[0] == 'c' && o[0] == 'c' && g[0] == 'f' && q[0] == 'o' && |f| == 8 && |o| == 9;
    NotTwoDashes(f);
    NotTwoDashes(o);
    hide Dashed;
  }

  lemma ZIndex()
    ensures Dashed("zIndex") == "z-index"
  {
    assert Bare("z") && Bare("ndex");
    BareWhole("ndex");
    Hump('I', "ndex");
    BareStays("z", "Index");
    hide Dashed, Bare, Clean, Joined;
    assert ['I'] + "ndex" == "Index" && "z" + "Index" == "zIndex";
    assert Lowered('I') == 'i' && ['-', 'i'] + "ndex" == "-index" && "z" + "-index" == "z-index";
  }

  lemma Clip()
    ensures Dashed("Clip") == "-clip"
  {
    assert Bare("lip");
    BareWhole("lip");
    Hump('C', "lip");
    hide Dashed, Bare, Clean, Joined;
    assert ['C'] + "lip" == "Clip";
    assert Lowered('C') == 'c' && ['-', 'c'] + "lip" == "-clip";
  }

  /** And two made by the rule. */
  lemma MadeNames()
    ensures Css("zIndex") == Some("z-index") && Css("webkitClip") == Some("-webkit-clip")
  {
    ZIndex();
    Clip();
    var a, b := "zIndex", "webkitClip";
    assert a[0] == 'z' && b[0] == 'w' && b[1] == 'e';
    assert b[..6] == "webkit" && b[6] == 'C' && b[6..] == "Clip";
    assert Ordinary(a) && Dashless(a) && Ordinary(b) && Dashless(b);
    CssOf(a);
    CssOf(b);
    hide Css, Dashed;
    assert !Webkit(a) && Webkit(b);
    assert "-webkit" + "-clip" == "-webkit-clip";
  }

  // ---- The two are inverse --------------------------------------------------------------------

  lemma {:induction false} JoinedDashed(s: string)
    requires Dashless(s)
    ensures Joined(Dashed(s), false) == s
  {
    hide *;
    if s == "" {
      DashedNone();
      JoinedNone(false);
    } else {
      DashlessTail(s);
      JoinedDashed(s[1..]);
      DashedFirst(s);
      RaisedLowered(s[0]);
      var t, below := Dashed(s), Dashed(s[1..]);
      JoinedFirst(t, false);
      if Capital(s[0]) {
        assert t[1..][1..] == below;
        JoinedFirst(t[1..], true);
      } else {
        assert t[1..] == below;
      }
    }
  }

  lemma DashlessTail(s: string)
    requires s != "" && Dashless(s)
    ensures s[0] != '-' && Dashless(s[1..])
  {
  }

  lemma RaisedLowered(c: char)
    ensures Capital(c) ==> c != '-' && Small(Lowered(c)) && Lowered(c) != '-' && Raised(Lowered(c)) == c
    ensures Small(c) ==> c != '-' && !Capital(c) && Capital(Raised(c)) && Lowered(Raised(c)) == c
  {
  }

  /** No capital, and after each dash a small letter. */
  predicate Clean(s: string) {
    || s == ""
    || if s[0] == '-' then |s| > 1 && Small(s[1]) && Clean(s[2..]) else !Capital(s[0]) && Clean(s[1..])
  }

  lemma {:induction false} DashedClean(s: string)
    requires Dashless(s)
    ensures Clean(Dashed(s))
  {
    if s != "" {
      DashedClean(s[1..]);
      hide Dashed, Lowered;
      DashedFirst(s);
      RaisedLowered(s[0]);
      var t, below := Dashed(s), Dashed(s[1..]);
      if Capital(s[0]) {
        assert t[2..] == below;
      } else {
        assert t[1..] == below;
      }
    }
  }

  lemma {:induction false} DashedJoined(s: string)
    requires Clean(s)
    ensures Dashed(Joined(s, false)) == s
    decreases |s|
  {
    hide Dashed, Joined, Lowered, Raised;
    if s == "" {
      DashedNone();
      JoinedNone(false);
    } else {
      JoinedFirst(s, false);
      var t, c := if s[0] == '-' then s[2..] else s[1..], if s[0] == '-' then Raised(s[1]) else s[0];
      DashedJoined(t);
      if s[0] == '-' {
        JoinedFirst(s[1..], true);
        RaisedLowered(s[1]);
        assert s[1..][1..] == t && s == ['-', s[1]] + t;
      } else {
        assert s == [s[0]] + t;
      }
      var u := [c] + Joined(t, false);
      assert u[1..] == Joined(t, false);
      DashedFirst(u);
    }
  }

  lemma {:induction false} JoinedDashless(s: string, raise: bool)
    ensures Dashless(Joined(s, raise))
  {
    if s != "" {
      JoinedDashless(s[1..], s[0] == '-');
      hide Joined;
      JoinedFirst(s, raise);
    }
  }

  // A start without dashes and capitals stays as it is.

  predicate Bare(p: string) { forall i :: 0 <= i < |p| ==> p[i] != '-' && !Capital(p[i]) }

  lemma BareFirst(p: string, s: string)
    requires Bare(p) && p != ""
    ensures p[0] != '-' && !Capital(p[0]) && Bare(p[1..]) && (p + s)[0] == p[0] && (p + s)[1..] == p[1..] + s && p == [p[0]] + p[1..]
  {
  }

  lemma {:induction false} BareStays(p: string, s: string)
    requires Bare(p)
    ensures Dashed(p + s) == p + Dashed(s) && Joined(p + s, false) == p + Joined(s, false) && (Clean(p + s) <==> Clean(s))
    decreases |p|
  {
    hide *;
    if p == "" {
      assert p + s == s && p + Dashed(s) == Dashed(s) && p + Joined(s, false) == Joined(s, false);
    } else {
      BareFirst(p, s);
      BareStays(p[1..], s);
      DashedFirst(p + s);
      JoinedFirst(p + s, false);
      CleanFirst(p + s);
      Regroup(p, Dashed(s));
      Regroup(p, Joined(s, false));
    }
  }

  lemma Regroup(p: string, s: string)
    requires p != ""
    ensures [p[0]] + (p[1..] + s) == p + s
  {
  }

  lemma CleanFirst(s: string)
    requires s != "" && s[0] != '-'
    ensures Clean(s) <==> !Capital(s[0]) && Clean(s[1..])
  {
  }

  /** A capital, or a dash and its small letter. */
  lemma Hump(c: char, s: string)
    requires Capital(c)
    ensures Dashed([c] + s) == ['-', Lowered(c)] + Dashed(s)
    ensures Joined(['-', Lowered(c)] + s, false) == [c] + Joined(s, false)
    ensures Clean(['-', Lowered(c)] + s) <==> Clean(s)
  {
    var t := ['-', Lowered(c)] + s;
    RaisedLowered(c);
    assert ([c] + s)[1..] == s && t[2..] == s && t[1..][1..] == s;
    DashedFirst([c] + s);
    JoinedFirst(t, false);
    JoinedFirst(t[1..], true);
    hide Dashed, Joined, Lowered, Raised, Capital, Small;
  }

  /** `css-`, a small letter and more are `css`, a capital and more. */
  lemma CssHump(c: char, s: string)
    requires Capital(c) && Bare(s)
    ensures Dashed("css" + [c] + s) == "css" + ['-', Lowered(c)] + s
    ensures Joined("css" + ['-', Lowered(c)] + s, false) == "css" + [c] + s
  {
    assert Bare("css");
    hide *;
    var d := ['-', Lowered(c)];
    assert "css" + [c] + s == "css" + ([c] + s) && "css" + d + s == "css" + (d + s);
    BareStays("css", [c] + s);
    BareStays("css", d + s);
    Hump(c, s);
    BareWhole(s);
  }

  lemma BareWhole(s: string)
    requires Bare(s)
    ensures Dashed(s) == s == Joined(s, false) && Clean(s)
  {
    hide Bare;
    assert s + "" == s;
    BareStays(s, "");
    DashedNone();
    JoinedNone(false);
  }

  lemma BareWords()
    ensures Capital('F') && Capital('O') && Lowered('F') == 'f' && Lowered('O') == 'o'
    ensures Bare("loat") && Bare("float") && Bare("ffset") && Bare("offset")
  {
  }

  lemma FloatSpelled()
    ensures Dashed("cssFloat") == "css-float" && Joined("css-float", false) == "cssFloat"
    ensures Dashed("float") == "float" && Clean("float")
  {
    BareWords();
    hide *;
    CssHump('F', "loat");
    BareWhole("float");
    assert "cssFloat" == "css" + ['F'] + "loat" && "css-float" == "css" + ['-', 'f'] + "loat";
  }

  lemma OffsetSpelled()
    ensures Dashed("cssOffset") == "css-offset" && Joined("css-offset", false) == "cssOffset"
    ensures Dashed("offset") == "offset" && Clean("offset")
  {
    BareWords();
    hide *;
    CssHump('O', "ffset");
    BareWhole("offset");
    assert "cssOffset" == "css" + ['O'] + "ffset" && "css-offset" == "css" + ['-', 'o'] + "ffset";
  }

  lemma WebkitParts(idl: string)
    requires Webkit(idl)
    ensures idl == "webkit" + idl[6..] && Dashed(idl) == "webkit" + Dashed(idl[6..]) && Dashed(idl[6..])[0] == '-'
    ensures Starts(Dashed(idl), "webkit-") && Starts("-webkit" + Dashed(idl[6..]), "-webkit-")
  {
    var s := idl[6..];
    assert idl == "webkit" + s && Bare("webkit");
    BareStays("webkit", s);
    DashedFirst(s);
    hide Dashed, Joined, Clean, Bare;
    assert ("webkit" + Dashed(s))[..7] == "webkit-" && ("-webkit" + Dashed(s))[..8] == "-webkit-";
  }

  // ---- The theorems ----------------------------------------------------------------------------

  /** The names that are neither custom properties nor one of the two renamed. */
  predicate Ordinary(s: string) { !Starts(s, "--") && s != "cssFloat" && s != "cssOffset" && s != "float" && s != "offset" }

  lemma CssOf(idl: string)
    requires Ordinary(idl)
    ensures Css(idl) == if idl == "" || !Dashless(idl) || Capital(idl[0]) then None
                        else if Webkit(idl) then Some("-webkit" + Dashed(idl[6..])) else Some(Dashed(idl))
  {
    hide Starts, Dashless, Dashed, Capital;
  }

  lemma IdlOf(css: string)
    requires !Starts(css, "--") && css != "float" && css != "offset"
    ensures Idl(css) == if Starts(css, "-webkit-") then "webkit" + Joined(css[7..], false) else Joined(css, false)
  {
    hide Starts, Joined;
  }

  /** No attribute name is lost: from its CSS name it comes back. */
  lemma AttributeBack(idl: string)
    requires Css(idl).Some?
    ensures Idl(Css(idl).value) == idl
  {
    if Ordinary(idl) {
      CssOf(idl);
      JoinedDashed(idl);
      if Webkit(idl) {
        WebkitBack(idl);
      } else {
        PlainBack(idl);
      }
    } else {
      hide Dashed, Joined, Starts;
    }
  }

  lemma WebkitBack(idl: string)
    requires Webkit(idl) && Dashless(idl)
    ensures Idl("-webkit" + Dashed(idl[6..])) == idl
  {
    WebkitParts(idl);
    JoinedDashed(idl[6..]);
    var css := "-webkit" + Dashed(idl[6..]);
    assert css[1] == 'w' && css[0] == '-' && css[7..] == Dashed(idl[6..]);
    NotTwoDashes(css);
    IdlOf(css);
    hide *;
  }

  lemma NotTwoDashes(s: string)
    requires s != ""
    ensures s[0] != '-' || (|s| > 1 && s[1] != '-') ==> !Starts(s, "--")
    ensures s[0] != '-' ==> !Starts(s, "-webkit-")
    ensures s[0] == '-' ==> s != "float" && s != "offset" && s != "cssFloat" && s != "cssOffset" && !Starts(s, "webkit-")
  {
  }

  lemma PlainBack(idl: string)
    requires Ordinary(idl) && idl != "" && Dashless(idl) && !Capital(idl[0])
    ensures Idl(Dashed(idl)) == idl
  {
    hide *;
    var css := Dashed(idl);
    JoinedDashed(idl);
    StartsSame(idl);
    NotTwoDashes(css);
    WordsJoined();
    NotRenamed(idl);
    IdlOf(css);
  }

  lemma StartsSame(idl: string)
    requires idl != "" && Dashless(idl) && !Capital(idl[0])
    ensures var css := Dashed(idl); css != "" && css[0] == idl[0] != '-'
  {
    DashedFirst(idl);
    hide Dashed;
  }

  lemma NotRenamed(idl: string)
    requires Ordinary(idl)
    ensures idl != "float" && idl != "offset"
  {
  }

  lemma WordsJoined()
    ensures Joined("float", false) == "float" && Joined("offset", false) == "offset"
  {
    assert Bare("float") && Bare("offset");
    hide *;
    BareWhole("float");
    BareWhole("offset");
  }

  /** So one CSS name is one attribute's. */
  lemma OneAttribute(a: string, b: string)
    requires Css(a).Some? && Css(a) == Css(b)
    ensures a == b
  {
    hide Css, Idl;
    AttributeBack(a);
    AttributeBack(b);
  }

  /** The CSS names attributes stand for. */
  predicate Reached(css: string) {
    || Starts(css, "--")
    || (css != "" && Clean(css) && (css[0] == '-' ==> Starts(css, "-webkit-")) && !Starts(css, "webkit-")
        && css != "css-float" && css != "css-offset")
  }

  lemma WebkitIff(css: string)
    requires Starts(css, "-webkit-")
    ensures Css(Idl(css)) == Some(css) <==> Clean(css)
  {
    var rest := css[7..];
    var t := Joined(rest, false);
    WebkitCss(css);
    JoinedDashless(rest, false);
    DashedClean(t);
    if Clean(rest) {
      DashedJoined(rest);
    }
    WebkitIdl(t);
    if t != "" {
      DashedFirst(t);
    }
    hide Joined, Dashed, Clean, Css, Idl, Starts, Capital, Lowered;
    assert (("-webkit" + Dashed(t))[7..] == Dashed(t));
  }

  lemma WebkitCss(css: string)
    requires Starts(css, "-webkit-")
    ensures var rest := css[7..];
            && css == "-webkit" + rest && rest[0] == '-' && (Clean(css) <==> Clean(rest))
            && Idl(css) == "webkit" + Joined(rest, false) && css[0] == '-'
  {
    var rest := css[7..];
    assert css[..8][0] == '-' && css[..8][1] == 'w' && css[..8][7] == '-';
    assert css == "-webkit" + rest && Bare("ebkit");
    assert Clean(css) <==> Clean("ebkit" + rest) by {
      assert css[2..] == "ebkit" + rest && css[0] == '-' && Small(css[1]);
    }
    BareStays("ebkit", rest);
    hide Joined, Clean, Bare;
    NotTwoDashes(css);
    IdlOf(css);
  }

  lemma WebkitIdl(t: string)
    requires Dashless(t)
    ensures var css := Css("webkit" + t);
            if t != "" && Capital(t[0]) then css == Some("-webkit" + Dashed(t)) else css.Some? && css.value != "" && css.value[0] == 'w'
  {
    var idl := "webkit" + t;
    WebkitOrdinary(t);
    hide *;
    CssOf(idl);
    DashedFirst(idl);
    assert idl[6..] == t;
  }

  lemma WebkitOrdinary(t: string)
    requires Dashless(t)
    ensures var idl := "webkit" + t;
            && Ordinary(idl) && Dashless(idl) && idl[0] == 'w' && !Capital(idl[0]) && (Webkit(idl) <==> t != "" && Capital(t[0]))
  {
    var idl := "webkit" + t;
    assert Dashless("webkit") && idl[..6] == "webkit" && idl[6..] == t;
    DashlessStarts(idl);
    assert "cssFloat"[0] == 'c' && "cssOffset"[0] == 'c' && "float"[0] == 'f' && "offset"[0] == 'o' && idl[0] == 'w';
    assert |idl| > 6 ==> idl[6] == t[0];
  }

  lemma PlainIff(css: string)
    requires !Starts(css, "--") && !Starts(css, "-webkit-") && css != "float" && css != "offset"
    ensures Css(Idl(css)) == Some(css) <==> Reached(css)
  {
    hide *;
    IdlOf(css);
    if css == "css-float" || css == "css-offset" || css == "" {
      Excluded(css);
    } else {
      var t := Joined(css, false);
      IsBetween(css);
      if Ordinary(t) {
        OrdinaryIff(css, t);
      } else {
        RenamedIff(css, t);
      }
    }
  }

  lemma Excluded(css: string)
    requires css == "css-float" || css == "css-offset" || css == ""
    ensures Css(Joined(css, false)) != Some(css) && !Reached(css)
  {
    FloatSpelled();
    OffsetSpelled();
    JoinedNone(false);
    assert css != "" ==> css[0] == 'c';
    if css != "" {
      NotTwoDashes(css);
      NotTwoDashes("cssFloat");
      NotTwoDashes("cssOffset");
    }
    hide Joined, Dashed, Clean, Starts, Dashless, Capital;
  }

  lemma IsBetween(css: string)
    requires !Starts(css, "--") && !Starts(css, "-webkit-") && css != "float" && css != "offset" && css != ""
    requires css != "css-float" && css != "css-offset"
    ensures Between(css, Joined(css, false))
  {
    JoinedDashless(css, false);
    DashedClean(Joined(css, false));
    if Clean(css) {
      DashedJoined(css);
    }
    hide Joined, Dashed, Clean, Dashless, Starts;
  }

  /** Dashed, a name begins as `webkit-` exactly if it begins as `webkit` and a capital. */
  lemma WebkitDashed(t: string)
    requires Dashless(t)
    ensures Webkit(t) <==> Starts(Dashed(t), "webkit-")
  {
    if Webkit(t) {
      WebkitParts(t);
    } else if Starts(Dashed(t), "webkit-") {
      WebkitUndone(t);
    }
  }

  lemma WebkitUndone(t: string)
    requires Dashless(t) && Starts(Dashed(t), "webkit-")
    ensures Webkit(t)
  {
    var d := Dashed(t);
    var r := d[6..];
    assert d[..7][..6] == "webkit" == d[..6] && r[0] == d[..7][6] == '-' && d == d[..6] + r;
    assert Bare("webkit");
    DashedClean(t);
    JoinedDashed(t);
    BareStays("webkit", r);
    assert Clean(r) && Small(r[1]);
    hide Dashed, Clean, Starts, Bare;
    RaisedLowered(r[1]);
    JoinedFirst(r, false);
    JoinedFirst(r[1..], true);
    assert t[..6] == "webkit" && Capital(t[6]);
    WebkitIs(t);
  }

  lemma WebkitIs(t: string)
    requires |t| > 6 && t[..6] == "webkit" && Capital(t[6])
    ensures Webkit(t)
  {
  }

  /** What a name between `css` and its attribute name is known to keep to. */
  ghost predicate Between(css: string, t: string) {
    && !Starts(css, "--") && !Starts(css, "-webkit-") && css != "float" && css != "offset" && css != ""
    && css != "css-float" && css != "css-offset"
    && Dashless(t) && Clean(Dashed(t)) && (Clean(css) ==> Dashed(t) == css)
  }

  lemma OrdinaryIff(css: string, t: string)
    requires Between(css, t) && Ordinary(t)
    ensures Css(t) == Some(css) <==> Reached(css)
  {
    CssOf(t);
    WebkitDashed(t);
    if t == "" {
      DashedNone();
    } else {
      DashedFirst(t);
      if Webkit(t) {
        WebkitParts(t);
      }
    }
    assert t != "" && !Capital(t[0]) ==> Dashed(t)[0] == t[0] != '-';
    assert t != "" && Capital(t[0]) ==> Dashed(t)[0] == '-';
    hide Dashed, Clean, Css, Capital, Ordinary, Dashless, Starts, Lowered;
  }

  lemma RenamedIff(css: string, t: string)
    requires Between(css, t) && !Ordinary(t)
    ensures Css(t) == Some(css) <==> Reached(css)
  {
    FloatSpelled();
    OffsetSpelled();
    DashlessStarts(t);
    hide Dashed, Clean, Dashless, Starts, Joined;
  }

  lemma DashlessStarts(t: string)
    requires Dashless(t)
    ensures !Starts(t, "--")
  {
    assert "--"[0] == '-';
    assert |t| >= 2 ==> t[..2][0] == t[0] != '-';
  }

  /** A CSS name comes back from its attribute name exactly if some attribute stands for it. */
  lemma CssBackIff(css: string)
    ensures Css(Idl(css)) == Some(css) <==> Reached(css)
    ensures (exists idl :: Css(idl) == Some(css)) <==> Reached(css)
  {
    if !Starts(css, "--") {
      if css == "float" || css == "offset" {
        WordReached(css);
      } else if Starts(css, "-webkit-") {
        WebkitIff(css);
        WebkitCss(css);
        NotTwoDashes(css);
      } else {
        PlainIff(css);
      }
    }
    hide *;
    if idl :| Css(idl) == Some(css) {
      AttributeBack(idl);
    }
  }

  lemma WordReached(css: string)
    requires css == "float" || css == "offset"
    ensures Reached(css) && Css(Idl(css)) == Some(css)
  {
    assert css[0] != '-' && |css| < 7;
    NotTwoDashes(css);
    NotTwoDashes("cssFloat");
    NotTwoDashes("cssOffset");
    WordClean(css);
    hide Clean, Dashed, Joined, Dashless, Capital;
  }

  lemma WordClean(css: string)
    requires css == "float" || css == "offset"
    ensures Clean(css)
  {
    hide *;
    FloatSpelled();
    OffsetSpelled();
  }

  // ---- Reading an object's keys ----------------------------------------------------------------

  /** Texts compare as std::string does. */
  predicate Before(a: string, b: string)
    decreases |a|
  {
    b != "" && (a == "" || a[0] < b[0] || (a[0] == b[0] && Before(a[1..], b[1..])))
  }

  /** At the first place where two texts differ the lesser has the lesser character, or has ended. */
  lemma {:induction false} BeforeExactly(a: string, b: string)
    ensures Before(a, b) <==> exists k: nat :: DiffersAt(a, b, k)
    decreases |a|
  {
    if DiffersAt(a, b, 0) {
      assert Before(a, b);
    } else if a != "" && b != "" && a[0] == b[0] {
      BeforeExactly(a[1..], b[1..]);
      forall k: nat
        ensures DiffersAt(a, b, k + 1) <==> DiffersAt(a[1..], b[1..], k)
      {
        LaterDiffers(a, b, k);
      }
      if Before(a, b) {
        var k: nat :| DiffersAt(a[1..], b[1..], k);
        assert DiffersAt(a, b, k + 1);
      }
      forall k: nat | DiffersAt(a, b, k)
        ensures Before(a, b)
      {
        assert DiffersAt(a[1..], b[1..], k - 1);
      }
    } else {
      assert forall k: nat :: !DiffersAt(a, b, k);
    }
  }

  predicate DiffersAt(a: string, b: string, k: nat) {
    k <= |a| && k < |b| && a[..k] == b[..k] && (k == |a| || a[k] < b[k])
  }

  lemma LaterDiffers(a: string, b: string, k: nat)
    requires a != "" && b != "" && a[0] == b[0]
    ensures DiffersAt(a, b, k + 1) <==> DiffersAt(a[1..], b[1..], k)
  {
    if k + 1 <= |a| && k + 1 < |b| {
      assert a[1..][..k] == a[..k + 1][1..] && b[1..][..k] == b[..k + 1][1..];
      assert a[..k + 1] == [a[0]] + a[1..][..k] && b[..k + 1] == [b[0]] + b[1..][..k];
    }
  }

  lemma {:induction false} BeforeTotal(a: string, b: string)
    ensures Before(a, b) || a == b || Before(b, a)
    decreases |a|
  {
    if a != "" && b != "" && a[0] == b[0] {
      BeforeTotal(a[1..], b[1..]);
      assert a == [a[0]] + a[1..] && b == [b[0]] + b[1..];
    }
  }

  lemma {:induction false} BeforeTransitive(a: string, b: string, c: string)
    requires Before(a, b) && Before(b, c)
    ensures Before(a, c)
    decreases |a|
  {
    if a != "" && a[0] == b[0] == c[0] {
      BeforeTransitive(a[1..], b[1..], c[1..]);
    }
  }

  lemma {:induction false} NotBeforeItself(a: string)
    ensures !Before(a, a)
    decreases |a|
  {
    if a != "" {
      NotBeforeItself(a[1..]);
    }
  }

  /** Whether the cascade knows a CSS name is for the caller to say; a custom property needs a name after its dashes. */
  predicate Animatable(css: string, known: string -> bool) {
    if Starts(css, "--") then |css| > 2 else known(css)
  }

  /** A key that names a property. */
  predicate Names(key: string, known: string -> bool) {
    Css(key).Some? && Animatable(Css(key).value, known)
  }

  /** A custom property whose dashes are not all of it, or an attribute name the cascade knows by its CSS name. */
  lemma NamesExactly(key: string, known: string -> bool)
    ensures Names(key, known) <==> if Starts(key, "--") then |key| > 2
                                   else Css(key).Some? && known(Css(key).value)
  {
    if !Starts(key, "--") && Css(key).Some? {
      NoCustom(key);
    }
    hide Dashed;
  }

  /** An attribute name that is no custom property's gives none. */
  lemma NoCustom(key: string)
    requires !Starts(key, "--") && Css(key).Some?
    ensures !Starts(Css(key).value, "--")
  {
    if Starts(Css(key).value, "--") {
      AttributeBack(key);
    }
    hide Css;
  }

  function Insert(s: seq<string>, k: string): seq<string>
    decreases |s|
  {
    if s == [] || Before(k, s[0]) then [k] + s else [s[0]] + Insert(s[1..], k)
  }

  function Sort(s: seq<string>): seq<string>
    decreases |s|
  {
    if s == [] then [] else Insert(Sort(s[..|s| - 1]), s[|s| - 1])
  }

  function Naming(keys: seq<string>, known: string -> bool): seq<string>
    decreases |keys|
  {
    if keys == [] then []
    else Naming(keys[..|keys| - 1], known) + if Names(keys[|keys| - 1], known) then [keys[|keys| - 1]] else []
  }

  /** The property part of `process_keyframe_like`; `read` gets the values a key holds. */
  method ReadProperties(keys: seq<string>, known: string -> bool, read: string -> seq<string>) returns (ps: seq<Property>)
    ensures Read(ps, Sort(Naming(keys, known)), read)
  {
    hide Css, Animatable, Sort, Starts;
    var names := [];
    for i := 0 to |keys|
      invariant names == Naming(keys[..i], known)
    {
      assert keys[..i + 1][..i] == keys[..i];
      var css := CssName(keys[i]);
      if css.Some? && Animatable(css.value, known) {
        names := names + [keys[i]];
      }
    }
    assert keys[..|keys|] == keys;
    var sorted := Sort(names);
    SortedNames(keys, known);
    ps := [];
    for i := 0 to |sorted|
      invariant Read(ps, sorted[..i], read)
    {
      assert sorted[i] in sorted;
      ps := ps + [Property(Css(sorted[i]).value, read(sorted[i]))];
    }
    assert sorted[..|sorted|] == sorted;
  }

  /** The properties are those of the names. */
  ghost predicate Read(ps: seq<Property>, names: seq<string>, read: string -> seq<string>) {
    && |ps| == |names|
    && forall i :: 0 <= i < |ps| ==> Css(names[i]) == Some(ps[i].name) && ps[i].values == read(names[i])
  }

  lemma {:induction false} InsertMembers(s: seq<string>, k: string)
    ensures forall x :: x in Insert(s, k) <==> x in s || x == k
    decreases |s|
  {
    if s != [] {
      InsertMembers(s[1..], k);
      hide Before;
      assert s == [s[0]] + s[1..];
    }
  }

  lemma {:induction false} SortMembers(s: seq<string>)
    ensures forall x :: x in Sort(s) <==> x in s
    decreases |s|
  {
    if s != [] {
      SortMembers(s[..|s| - 1]);
      InsertMembers(Sort(s[..|s| - 1]), s[|s| - 1]);
      hide Insert;
      assert s == s[..|s| - 1] + [s[|s| - 1]];
    }
  }

  lemma {:induction false} NamingMembers(keys: seq<string>, known: string -> bool)
    ensures forall x :: x in Naming(keys, known) <==> x in keys && Names(x, known)
    decreases |keys|
  {
    if keys != [] {
      NamingMembers(keys[..|keys| - 1], known);
      hide Names;
      assert keys == keys[..|keys| - 1] + [keys[|keys| - 1]];
    }
  }

  lemma SortedNames(keys: seq<string>, known: string -> bool)
    ensures forall x :: x in Sort(Naming(keys, known)) <==> x in keys && Names(x, known)
  {
    SortMembers(Naming(keys, known));
    NamingMembers(keys, known);
  }

  ghost predicate Distinct(s: seq<string>) { forall i, j :: 0 <= i < j < |s| ==> s[i] != s[j] }

  ghost predicate Rises(s: seq<string>) { forall i, j :: 0 <= i < j < |s| ==> Before(s[i], s[j]) }

  lemma {:induction false} InsertRises(s: seq<string>, k: string)
    requires Rises(s) && k !in s
    ensures Rises(Insert(s, k))
    decreases |s|
  {
    if s != [] {
      var t := s[1..];
      assert s == [s[0]] + t;
      if Before(k, s[0]) {
        hide Before;
        forall x | x in t
          ensures Before(k, x)
        {
          var i :| 0 <= i < |t| && t[i] == x;
          BeforeTransitive(k, s[0], s[i + 1]);
        }
      } else {
        InsertRises(t, k);
        InsertMembers(t, k);
        BeforeTotal(k, s[0]);
        hide Before, Insert;
        var u := Insert(t, k);
        forall i | 0 <= i < |u|
          ensures Before(s[0], u[i])
        {
          assert u[i] in u;
          if u[i] in t {
            var j :| 0 <= j < |t| && t[j] == u[i];
            assert s[j + 1] == u[i];
          }
        }
      }
    }
  }

  lemma {:induction false} SortRises(s: seq<string>)
    requires Distinct(s)
    ensures Rises(Sort(s))
    decreases |s|
  {
    if s != [] {
      var t := s[..|s| - 1];
      SortRises(t);
      SortMembers(t);
      InsertRises(Sort(t), s[|s| - 1]);
    }
  }

  lemma {:induction false} NamingDistinct(keys: seq<string>, known: string -> bool)
    requires Distinct(keys)
    ensures Distinct(Naming(keys, known))
    decreases |keys|
  {
    if keys != [] {
      NamingDistinct(keys[..|keys| - 1], known);
      NamingMembers(keys[..|keys| - 1], known);
      hide Names;
    }
  }

  /** The keys of an object are distinct, so no two of its properties have one name; none of its names is left out; and they are in order. */
  lemma ReadOnce(keys: seq<string>, known: string -> bool, read: string -> seq<string>, ps: seq<Property>)
    requires Distinct(keys) && Read(ps, Sort(Naming(keys, known)), read)
    ensures OnceNamed(ps) && Rises(Sort(Naming(keys, known)))
    ensures forall key :: key in keys && Names(key, known) ==> Property(Css(key).value, read(key)) in ps
    ensures forall p :: p in ps ==> exists key :: key in keys && Names(key, known) && p == Property(Css(key).value, read(key))
  {
    var names := Sort(Naming(keys, known));
    NamingDistinct(keys, known);
    SortRises(Naming(keys, known));
    SortedNames(keys, known);
    hide Sort, Naming, Css, Before, Animatable;
    forall i, j | 0 <= i < j < |ps|
      ensures ps[i].name != ps[j].name
    {
      assert Before(names[i], names[j]);
      NotBeforeItself(names[i]);
      if ps[i].name == ps[j].name {
        OneAttribute(names[i], names[j]);
      }
    }
    forall key | key in keys && Names(key, known)
      ensures Property(Css(key).value, read(key)) in ps
    {
      var i :| 0 <= i < |names| && names[i] == key;
      assert ps[i] == Property(Css(key).value, read(key));
    }
    forall p | p in ps
      ensures exists key :: key in keys && Names(key, known) && p == Property(Css(key).value, read(key))
    {
      var i :| 0 <= i < |ps| && ps[i] == p;
      assert names[i] in names;
    }
  }

  /** From the object to the keyframes: value i of a key is the one its property has at its place, and it has no other places. */
  lemma KeyConserved(keys: seq<string>, known: string -> bool, read: string -> seq<string>, ps: seq<Property>, ks: seq<Keyframe>,
                     key: string, i: nat)
    requires Distinct(keys) && Read(ps, Sort(Naming(keys, known)), read) && KeyframesOf(AllSpots(ps), ks)
    requires key in keys && Names(key, known) && i < |read(key)|
    ensures var n := |read(key)|;
            var at := if n == 1 then 1.0 else i as real / (n - 1) as real;
            && (exists j :: 0 <= j < |ks| && ks[j].at == at)
            && (forall j :: 0 <= j < |ks| && ks[j].at == at ==> Named(ks[j].values, Css(key).value) == [read(key)[i]])
    ensures forall j :: 0 <= j < |ks| && (forall k :: 0 <= k < |read(key)| ==> Offset(k, |read(key)|) != ks[j].at) ==>
              Named(ks[j].values, Css(key).value) == []
  {
    ReadOnce(keys, known, read, ps);
    hide Sort, Naming, Css, Animatable, Read, KeyframesOf, AllSpots, Offset, Named, OnceNamed;
    var q :| 0 <= q < |ps| && ps[q] == Property(Css(key).value, read(key));
    Conserved(ps, ks, q, i);
  }
}
