/**
 * `sanitizePrefix`: turns the user's free-text prefix into a name that is
 * safe as a folder and file name.
 *
 * Characters are Dafny `char`s; the whitespace class is the one JavaScript's
 * `trim()` and `\s` share (WhiteSpace and LineTerminator).
 */
module Prefix {

  /**
   * JavaScript whitespace: tab, line feed, vertical tab, form feed, carriage
   * return and space below U+00A0; above it NBSP, the Zs space separators,
   * the line and paragraph separators and the byte-order mark.
   */
  predicate IsWhitespace(c: char) {
    if c < '\U{00A0}' then
      c == ' ' || ('\t' <= c <= '\r')
    else
      || c == '\U{00A0}' || c == '\U{1680}'
      || ('\U{2000}' <= c <= '\U{200A}')
      || c == '\U{2028}' || c == '\U{2029}' || c == '\U{202F}' || c == '\U{205F}'
      || c == '\U{3000}' || c == '\U{FEFF}'
  }

  /** The characters the prefix may keep: `[A-Za-z0-9_-]`. */
  predicate IsAllowed(c: char) {
    || ('A' <= c <= 'Z') || ('a' <= c <= 'z') || ('0' <= c <= '9')
    || c == '_' || c == '-'
  }

  predicate AllAllowed(s: string) {
    forall i :: 0 <= i < |s| ==> IsAllowed(s[i])
  }

  predicate NoWhitespace(s: string) {
    forall i :: 0 <= i < |s| ==> !IsWhitespace(s[i])
  }

  predicate AllWhitespace(s: string) {
    forall i :: 0 <= i < |s| ==> IsWhitespace(s[i])
  }

  /** Drops leading whitespace (see `TrimStartSpec`). */
  function TrimStart(s: string): (r: string)
    ensures |r| <= |s|
    decreases |s|
  {
    if s != [] && IsWhitespace(s[0]) then TrimStart(s[1..]) else s
  }

  /** `TrimStart` returns the longest suffix that does not start with whitespace. */
  lemma {:induction false} TrimStartSpec(s: string)
    ensures var r := TrimStart(s);
      && r == s[|s| - |r|..]
      && (forall i :: 0 <= i < |s| - |r| ==> IsWhitespace(s[i]))
      && (r != [] ==> !IsWhitespace(r[0]))
    decreases |s|
  {
    if s != [] && IsWhitespace(s[0]) {
      TrimStartSpec(s[1..]);
    }
  }

  /** Drops trailing whitespace (see `TrimEndSpec`). */
  function TrimEnd(s: string): (r: string)
    ensures |r| <= |s|
    decreases |s|
  {
    if s != [] && IsWhitespace(s[|s| - 1]) then TrimEnd(s[..|s| - 1]) else s
  }

  /** `TrimEnd` returns the longest prefix that does not end in whitespace. */
  lemma {:induction false} TrimEndSpec(s: string)
    ensures var r := TrimEnd(s);
      && r == s[..|r|]
      && (forall i :: |r| <= i < |s| ==> IsWhitespace(s[i]))
      && (r != [] ==> !IsWhitespace(r[|r| - 1]))
    decreases |s|
  {
    if s != [] && IsWhitespace(s[|s| - 1]) {
      TrimEndSpec(s[..|s| - 1]);
    }
  }

  /** JavaScript's `trim()`. */
  function Trim(s: string): string
  {
    TrimEnd(TrimStart(s))
  }

  /** The trimmed string neither starts nor ends with whitespace, and is empty exactly for an all-whitespace input. */
  lemma TrimSpec(s: string)
    ensures var r := Trim(s);
      && |r| <= |s|
      && (r != [] ==> !IsWhitespace(r[0]) && !IsWhitespace(r[|r| - 1]))
      && (r == [] <==> AllWhitespace(s))
  {
    var t := TrimStart(s);
    TrimStartSpec(s);
    TrimEndSpec(t);
    var r := TrimEnd(t);
    if r != [] {
      assert r[0] == t[0];
    }
  }

  /** `replace(/\s+/g, '_')`: every maximal run of whitespace becomes one underscore. */
  function CollapseWhitespace(s: string): (r: string)
    decreases |s|
  {
    if s == [] then []
    else if IsWhitespace(s[0]) then "_" + CollapseWhitespace(TrimStart(s))
    else [s[0]] + CollapseWhitespace(s[1..])
  }

  /** The collapse leaves no whitespace, never lengthens the string, and empties only the empty string. */
  lemma {:induction false} CollapseSpec(s: string)
    ensures var r := CollapseWhitespace(s);
      && NoWhitespace(r)
      && |r| <= |s|
      && (r == [] <==> s == [])
    decreases |s|
  {
    if s != [] {
      if IsWhitespace(s[0]) {
        CollapseSpec(TrimStart(s));
      } else {
        CollapseSpec(s[1..]);
      }
    }
  }

  /** A string without whitespace is left as it is by the collapse. */
  lemma {:induction false} CollapseIdentity(s: string)
    requires NoWhitespace(s)
    ensures CollapseWhitespace(s) == s
    decreases |s|
  {
    if s != [] {
      CollapseIdentity(s[1..]);
    }
  }

  /** `replace(/[^A-Za-z0-9_\-]/g, '_')`: each disallowed character becomes an underscore. */
  function ReplaceDisallowed(s: string): string
  {
    seq(|s|, i requires 0 <= i < |s| => if IsAllowed(s[i]) then s[i] else '_')
  }

  /** The name used when nothing is left after sanitising. */
  const Fallback: string := "frames"

  /**
   * `sanitizePrefix(raw)`: trim, collapse whitespace runs, replace the
   * remaining disallowed characters, and fall back to `frames` when empty.
   */
  function SanitizePrefix(raw: string): (r: string)
    ensures r != [] && AllAllowed(r)
    ensures AllWhitespace(raw) ==> r == Fallback
    ensures !AllWhitespace(raw) ==> |r| <= |raw|
  {
    TrimSpec(raw);
    CollapseSpec(Trim(raw));
    var s := ReplaceDisallowed(CollapseWhitespace(Trim(raw)));
    if s == [] then Fallback else s
  }

  /** The prefix the handlers use: `sanitizePrefix(prefixEl.value || 'frame')`. */
  function FieldPrefix(field: string): (r: string)
    ensures r != [] && AllAllowed(r)
    ensures field != "" ==> r == SanitizePrefix(field)
    ensures field == "" ==> r == SanitizePrefix("frame")
  {
    SanitizePrefix(if field == "" then "frame" else field)
  }

  /** A non-empty string of allowed characters is left untouched. */
  lemma SanitizeFixesAllowed(s: string)
    requires s != [] && AllAllowed(s)
    ensures SanitizePrefix(s) == s
  {
    assert NoWhitespace(s);
    assert TrimStart(s) == s;
    assert TrimEnd(s) == s;
    CollapseIdentity(s);
  }

  /** Sanitising is idempotent. */
  lemma SanitizeIdempotent(raw: string)
    ensures SanitizePrefix(SanitizePrefix(raw)) == SanitizePrefix(raw)
  {
    SanitizeFixesAllowed(SanitizePrefix(raw));
  }

  /** An empty field gives `frame`; a whitespace-only field gives `frames`. */
  lemma FieldPrefixDefaults(field: string)
    ensures field == "" ==> FieldPrefix(field) == "frame"
    ensures field != "" && AllWhitespace(field) ==> FieldPrefix(field) == Fallback
  {
    SanitizeFixesAllowed("frame");
  }

  /** Without any whitespace, sanitising only replaces the disallowed characters. */
  lemma SanitizeWithoutWhitespace(raw: string)
    requires raw != [] && NoWhitespace(raw)
    ensures SanitizePrefix(raw) == ReplaceDisallowed(raw)
  {
    assert TrimStart(raw) == raw;
    assert TrimEnd(raw) == raw;
    CollapseIdentity(raw);
  }

  /** A whitespace-free word passes through the collapse unchanged, whatever follows it. */
  lemma {:induction false} CollapseKeepsWord(a: string, b: string)
    requires NoWhitespace(a)
    ensures CollapseWhitespace(a + b) == a + CollapseWhitespace(b)
    decreases |a|
  {
    if a != [] {
      var ab := a + b;
      assert ab[0] == a[0] && !IsWhitespace(ab[0]);
      assert ab[1..] == a[1..] + b;
      assert CollapseWhitespace(ab) == [a[0]] + CollapseWhitespace(a[1..] + b);
      CollapseKeepsWord(a[1..], b);
      var rest := CollapseWhitespace(b);
      assert [a[0]] + (a[1..] + rest) == ([a[0]] + a[1..]) + rest;
      assert [a[0]] + a[1..] == a;
    } else {
      assert a + b == b;
    }
  }

  /** A non-empty whitespace run followed by a non-whitespace character becomes one underscore. */
  lemma CollapseGap(w: string, b: string)
    requires w != [] && AllWhitespace(w)
    requires b == [] || !IsWhitespace(b[0])
    ensures CollapseWhitespace(w + b) == "_" + CollapseWhitespace(b)
  {
    TrimStartDropsWhitespace(w, b);
  }

  lemma {:induction false} TrimStartDropsWhitespace(w: string, b: string)
    requires AllWhitespace(w)
    requires b == [] || !IsWhitespace(b[0])
    ensures TrimStart(w + b) == b
    decreases |w|
  {
    if w != [] {
      assert (w + b)[1..] == w[1..] + b;
      TrimStartDropsWhitespace(w[1..], b);
    }
  }

  /** Leading whitespace is only dropped from the front: once a non-whitespace character is met, the rest stays. */
  lemma {:induction false} TrimStartConcat(x: string, y: string)
    requires x != [] && !IsWhitespace(x[|x| - 1])
    ensures TrimStart(x + y) == TrimStart(x) + y
    decreases |x|
  {
    var xy := x + y;
    assert xy[0] == x[0];
    if IsWhitespace(x[0]) {
      assert xy[1..] == x[1..] + y;
      TrimStartConcat(x[1..], y);
    }
  }

  /**
   * The collapse works piecewise: splitting the input where the left part
   * does not end in whitespace splits the output the same way.
   */
  lemma {:induction false} CollapseConcat(x: string, y: string)
    requires x == [] || !IsWhitespace(x[|x| - 1])
    ensures CollapseWhitespace(x + y) == CollapseWhitespace(x) + CollapseWhitespace(y)
    decreases |x|, 1
  {
    if x == [] {
      assert x + y == y;
    } else if IsWhitespace(x[0]) {
      CollapseConcatGapFirst(x, y);
    } else {
      CollapseConcatWordFirst(x, y);
    }
  }

  lemma {:induction false} CollapseConcatGapFirst(x: string, y: string)
    requires x != [] && IsWhitespace(x[0]) && !IsWhitespace(x[|x| - 1])
    ensures CollapseWhitespace(x + y) == CollapseWhitespace(x) + CollapseWhitespace(y)
    decreases |x|, 0
  {
    var xy := x + y;
    assert xy[0] == x[0];
    TrimStartConcat(x, y);
    TrimStartSpec(x);
    var t := TrimStart(x);
    assert t != [] && t[|t| - 1] == x[|x| - 1];
    CollapseConcat(t, y);
    var ct, cy := CollapseWhitespace(t), CollapseWhitespace(y);
    assert CollapseWhitespace(xy) == "_" + (ct + cy);
    assert CollapseWhitespace(x) == "_" + ct;
    assert "_" + (ct + cy) == ("_" + ct) + cy;
    assert CollapseWhitespace(xy) == CollapseWhitespace(x) + cy;
  }

  lemma {:induction false} CollapseConcatWordFirst(x: string, y: string)
    requires x != [] && !IsWhitespace(x[0]) && !IsWhitespace(x[|x| - 1])
    ensures CollapseWhitespace(x + y) == CollapseWhitespace(x) + CollapseWhitespace(y)
    decreases |x|, 0
  {
    var c, x1 := x[0], x[1..];
    assert x == [c] + x1;
    assert x + y == [c] + (x1 + y);
    CollapseConcat(x1, y);
    CollapseCons(c, x1 + y);
    CollapseCons(c, x1);
    var cx, cy := CollapseWhitespace(x1), CollapseWhitespace(y);
    assert [c] + (cx + cy) == ([c] + cx) + cy;
  }

  /** A non-whitespace character in front is kept by the collapse. */
  lemma CollapseCons(c: char, s: string)
    requires !IsWhitespace(c)
    ensures CollapseWhitespace([c] + s) == [c] + CollapseWhitespace(s)
  {
    assert ([c] + s)[1..] == s;
  }


  lemma ReplaceConcat(x: string, y: string)
    ensures ReplaceDisallowed(x + y) == ReplaceDisallowed(x) + ReplaceDisallowed(y)
  {
  }

  /** A string that neither starts nor ends with whitespace is its own trim. */
  lemma TrimmedIsFixed(s: string)
    requires s != [] && !IsWhitespace(s[0]) && !IsWhitespace(s[|s| - 1])
    ensures Trim(s) == s
  {
  }

  /** Two pieces joined by a whitespace run collapse to the collapsed pieces joined by one underscore. */
  lemma CollapseJoin(a: string, w: string, b: string)
    requires a != [] && !IsWhitespace(a[|a| - 1])
    requires b != [] && !IsWhitespace(b[0])
    requires w != [] && AllWhitespace(w)
    ensures CollapseWhitespace(a + w + b) == CollapseWhitespace(a) + "_" + CollapseWhitespace(b)
  {
    assert a + w + b == a + (w + b);
    CollapseConcat(a, w + b);
    CollapseGap(w, b);
    var ca, cb := CollapseWhitespace(a), CollapseWhitespace(b);
    assert ca + ("_" + cb) == ca + "_" + cb;
  }

  /**
   * Two trimmed pieces joined by a whitespace run sanitise to the two
   * sanitised pieces joined by a single underscore.
   */
  lemma SanitizeJoin(a: string, w: string, b: string)
    requires a != [] && !IsWhitespace(a[0]) && !IsWhitespace(a[|a| - 1])
    requires b != [] && !IsWhitespace(b[0]) && !IsWhitespace(b[|b| - 1])
    requires w != [] && AllWhitespace(w)
    ensures SanitizePrefix(a + w + b) == SanitizePrefix(a) + "_" + SanitizePrefix(b)
  {
    var s := a + w + b;
    assert s[0] == a[0] && s[|s| - 1] == b[|b| - 1];
    TrimmedIsFixed(s);
    TrimmedIsFixed(a);
    TrimmedIsFixed(b);
    CollapseJoin(a, w, b);
    var ca, cb := CollapseWhitespace(a), CollapseWhitespace(b);
    ReplaceConcat(ca + "_", cb);
    ReplaceConcat(ca, "_");
    assert ReplaceDisallowed("_") == "_";
  }

  /** `"My Hero!! 2"` becomes `My_Hero___2`: one underscore for the space, two for `!!`. */
  lemma SanitizeExample()
    ensures SanitizePrefix("My Hero!! 2") == "My_Hero___2"
  {
    SanitizeExampleSplit();
    SanitizeExampleTail();
    SanitizeFixesAllowed("My");
    JoinValues(SanitizePrefix("My"), SanitizePrefix("Hero!! 2"), SanitizePrefix("My Hero!! 2"));
  }

  /** Helper for the example: assembles the two sanitised pieces. */
  lemma JoinValues(a: string, b: string, s: string)
    requires a == "My" && b == "Hero___2" && s == a + "_" + b
    ensures s == "My_Hero___2"
  {
  }

  /** The example splits at its first space into two independently sanitised pieces. */
  lemma SanitizeExampleSplit()
    ensures SanitizePrefix("My Hero!! 2") == SanitizePrefix("My") + "_" + SanitizePrefix("Hero!! 2")
  {
    assert "My Hero!! 2" == "My" + " " + "Hero!! 2";
    SanitizeJoin("My", " ", "Hero!! 2");
  }

  /** `"Hero!! 2"` becomes `Hero___2`. */
  lemma SanitizeExampleTail()
    ensures SanitizePrefix("Hero!! 2") == "Hero___2"
  {
    SanitizeExampleTailSplit();
    SanitizeExampleWord();
    SanitizeFixesAllowed("2");
    JoinTailValues(SanitizePrefix("Hero!!"), SanitizePrefix("2"), SanitizePrefix("Hero!! 2"));
  }

  /** The tail of the example splits at its space into two independently sanitised pieces. */
  lemma SanitizeExampleTailSplit()
    ensures SanitizePrefix("Hero!! 2") == SanitizePrefix("Hero!!") + "_" + SanitizePrefix("2")
  {
    assert "Hero!! 2" == "Hero!!" + " " + "2";
    SanitizeJoin("Hero!!", " ", "2");
  }

  /** Helper for the example: assembles the two sanitised pieces of the tail. */
  lemma JoinTailValues(a: string, b: string, s: string)
    requires a == "Hero__" && b == "2" && s == a + "_" + b
    ensures s == "Hero___2"
  {
  }

  /** `"Hero!!"` has no whitespace, so each `!` just becomes an underscore. */
  lemma SanitizeExampleWord()
    ensures SanitizePrefix("Hero!!") == "Hero__"
  {
    SanitizeWithoutWhitespace("Hero!!");
  }
}
