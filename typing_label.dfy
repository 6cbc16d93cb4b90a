/** The line the chat view shows under the messages while others type:
    first names joined by " and ", then "is typing" for one person and
    "are typing" for several, and no line at all for nobody. */
module TypingLabel {
  import opened Seqs

  predicate SpaceFree(w: string)
  {
    ' ' !in w
  }

  /** `xs` joined with `sep` between consecutive elements, as `Array.prototype.join`. */
  function Join(xs: seq<string>, sep: string): string
  {
    if |xs| == 0 then ""
    else if |xs| == 1 then xs[0]
    else xs[0] + sep + Join(xs[1..], sep)
  }

  /** `String.prototype.split(" ")`: the pieces between single spaces,
      always at least one, possibly empty. */
  function Split(s: string): (r: seq<string>)
    ensures |r| >= 1
    ensures forall i :: 0 <= i < |r| ==> SpaceFree(r[i])
    ensures Join(r, " ") == s
  {
    if |s| == 0 then [""]
    else
      var rest := Split(s[1..]);
      if s[0] == ' ' then
        assert s == " " + s[1..];
        [""] + rest
      else
        var r := [[s[0]] + rest[0]] + rest[1..];
        assert s == [s[0]] + s[1..];
        assert r[1..] == rest[1..];
        r
  }

  /** `name.split(" ")[0]`: the name up to its first space. */
  function FirstName(name: string): (r: string)
    ensures r <= name && SpaceFree(r)
    ensures |r| < |name| ==> name[|r|] == ' '
  {
    var parts := Split(name);
    if |parts| == 1 then parts[0]
    else
      assert name == parts[0] + " " + Join(parts[1..], " ");
      assert name[|parts[0]|] == ' ';
      parts[0]
  }

  /** The first name is the only prefix that has no space and stops at a
      space or at the end. */
  lemma FirstNameUnique(name: string, p: string)
    requires p <= name && SpaceFree(p)
    requires |p| < |name| ==> name[|p|] == ' '
    ensures p == FirstName(name)
  {
    var f := FirstName(name);
    assert p == name[..|p|] && f == name[..|f|];
  }

  /** The label, or `None` where the component renders nothing. */
  function Label(names: seq<string>): (r: Option<string>)
    ensures r.None? <==> |names| == 0
    ensures |names| == 1 ==> r == Some(FirstName(names[0]) + " is typing")
  {
    if |names| == 0 then None
    else
      var text := Join(Map(FirstName, names), " and ");
      Some(if |names| == 1 then text + " is typing" else text + " are typing")
  }

  /** The words of `xs` with "and" between each two. */
  function WithAnd(xs: seq<string>): (r: seq<string>)
    ensures |xs| > 0 ==> |r| == 2 * |xs| - 1
  {
    if |xs| <= 1 then xs else [xs[0], "and"] + WithAnd(xs[1..])
  }

  lemma {:induction false} JoinAnd(xs: seq<string>)
    ensures Join(xs, " and ") == Join(WithAnd(xs), " ")
  {
    if |xs| > 1 {
      JoinAnd(xs[1..]);
      var w := WithAnd(xs[1..]);
      assert WithAnd(xs)[1..] == ["and"] + w;
      assert (["and"] + w)[1..] == w;
    }
  }

  lemma {:induction false} JoinAppend(a: seq<string>, b: seq<string>)
    requires |a| > 0 && |b| > 0
    ensures Join(a + b, " ") == Join(a, " ") + " " + Join(b, " ")
  {
    var ab := a + b;
    if |a| > 1 {
      JoinAppend(a[1..], b);
      assert ab[1..] == a[1..] + b;
      calc {
        Join(ab, " ");
        ab[0] + " " + Join(ab[1..], " ");
        a[0] + " " + (Join(a[1..], " ") + " " + Join(b, " "));
        (a[0] + " " + Join(a[1..], " ")) + " " + Join(b, " ");
      }
    } else {
      assert ab[1..] == b;
      assert ab[0] == a[0];
    }
  }

  /** Splitting a word then a space then anything: the word comes off whole. */
  lemma {:induction false} SplitWord(w: string, rest: string)
    requires SpaceFree(w)
    ensures Split(w + " " + rest) == [w] + Split(rest)
    ensures Split(w) == [w]
  {
    if |w| > 0 {
      SplitWord(w[1..], rest);
      assert (w + " " + rest)[1..] == w[1..] + " " + rest;
      assert w[0] in w;
      assert [w[0]] + w[1..] == w;
    }
  }

  /** Splitting undoes joining with spaces, for words without spaces. */
  lemma {:induction false} SplitJoin(ws: seq<string>)
    requires |ws| > 0 && AllSpaceFree(ws)
    ensures Split(Join(ws, " ")) == ws
  {
    if |ws| == 1 {
      SplitWord(ws[0], "");
    } else {
      SplitJoin(ws[1..]);
      SplitWord(ws[0], Join(ws[1..], " "));
    }
  }

  function Verb(n: nat): string
  {
    if n == 1 then "is" else "are"
  }

  /** The label is its words joined by single spaces. */
  lemma LabelText(names: seq<string>)
    requires |names| > 0
    ensures Label(names).value == Join(WithAnd(Map(FirstName, names)) + [Verb(|names|), "typing"], " ")
  {
    var firsts := Map(FirstName, names);
    var tail := [Verb(|names|), "typing"];
    var text := Join(firsts, " and ");
    JoinAnd(firsts);
    JoinAppend(WithAnd(firsts), tail);
    assert tail[1..] == ["typing"];
    Spelling(text, |names|);
  }

  lemma Spelling(text: string, n: nat)
    ensures text + (if n == 1 then " is typing" else " are typing") == text + " " + (Verb(n) + " " + "typing")
  {
  }

  /** The label reads word by word as the first names in input order with
      "and" between them, then "is typing" for one name and "are typing"
      for more. */
  lemma LabelWords(names: seq<string>)
    requires |names| > 0
    ensures Split(Label(names).value) == WithAnd(Map(FirstName, names)) + [Verb(|names|), "typing"]
  {
    var firsts := Map(FirstName, names);
    var tail := [Verb(|names|), "typing"];
    var ws := WithAnd(firsts) + tail;
    LabelText(names);
    FirstNamesSpaceFree(names);
    WithAndSpaceFree(firsts);
    TailSpaceFree(|names|);
    AllSpaceFreeAppend(WithAnd(firsts), tail);
    SplitJoin(ws);
  }

  predicate AllSpaceFree(ws: seq<string>)
  {
    forall i :: 0 <= i < |ws| ==> SpaceFree(ws[i])
  }

  lemma FirstNamesSpaceFree(names: seq<string>)
    ensures AllSpaceFree(Map(FirstName, names))
  {
    var firsts := Map(FirstName, names);
    forall i | 0 <= i < |firsts| ensures SpaceFree(firsts[i]) {
      assert firsts[i] == FirstName(names[i]);
    }
  }

  lemma TailSpaceFree(n: nat)
    ensures AllSpaceFree([Verb(n), "typing"])
  {
    assert ' ' !in Verb(n) && ' ' !in "typing";
  }

  lemma AllSpaceFreeAppend(a: seq<string>, b: seq<string>)
    requires AllSpaceFree(a) && AllSpaceFree(b)
    ensures AllSpaceFree(a + b)
  {
  }

  lemma {:induction false} WithAndSpaceFree(xs: seq<string>)
    requires AllSpaceFree(xs)
    ensures AllSpaceFree(WithAnd(xs))
  {
    if |xs| > 1 {
      WithAndSpaceFree(xs[1..]);
    }
  }

  /** Two people typing. */
  lemma TwoTyping(a: string, b: string)
    ensures Label([a, b]) == Some(FirstName(a) + " and " + FirstName(b) + " are typing")
  {
    var firsts := [FirstName(a), FirstName(b)];
    assert Map(FirstName, [a, b]) == firsts;
    assert firsts[1..] == [FirstName(b)];
    assert Join(firsts, " and ") == FirstName(a) + " and " + FirstName(b);
  }
}
