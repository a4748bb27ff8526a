/**
 Inline markdown: parseInline of internal/markdown/parser.go, the recursive printer of ast.go, and the
 ReMarkdown formatter. A char stands for one byte.
 */
module Markdown {

  datatype Node =
    | Text(content: string)
    | Strong(nodeChildren: seq<Node>)
    | Emphasis(nodeChildren: seq<Node>)
    | Special(nodeChildren: seq<Node>, level: nat)

  function Repeat(c: char, n: nat): (s: string)
    ensures |s| == n && forall i :: 0 <= i < n ==> s[i] == c
  {
    seq(n, _ => c)
  }

  // ---------- printing ----------

  // baseNode.String under ReMarkdown, which uses depth only for block elements
  function String(n: Node, depth: int): string
    decreases n, 1
  {
    match n
    case Text(content) => content
    case Strong(children) => "**" + Strings(children, depth + 1) + "**"
    case Emphasis(children) => "*" + Strings(children, depth + 1) + "*"
    case Special(children, level) => Repeat('~', level) + Strings(children, depth + 1) + Repeat('~', level)
  }

  function Strings(ns: seq<Node>, depth: int): string
    decreases ns, 0
  {
    if ns == [] then "" else String(ns[0], depth) + Strings(ns[1..], depth)
  }

  lemma {:induction false} DepthIrrelevant(ns: seq<Node>, d1: int, d2: int)
    ensures Strings(ns, d1) == Strings(ns, d2)
    decreases ns
  {
    if ns != [] {
      match ns[0] {
        case Text(_) =>
        case Strong(c) => DepthIrrelevant(c, d1 + 1, d2 + 1);
        case Emphasis(c) => DepthIrrelevant(c, d1 + 1, d2 + 1);
        case Special(c, _) => DepthIrrelevant(c, d1 + 1, d2 + 1);
      }
      DepthIrrelevant(ns[1..], d1, d2);
    }
  }

  function Print(ns: seq<Node>): string {
    Strings(ns, 0)
  }

  // ---------- searching ----------

  predicate OccursAt(s: string, sub: string, j: int) {
    0 <= j && j + |sub| <= |s| && s[j..j + |sub|] == sub
  }

  // sub occurs in s at j and nowhere before
  ghost predicate FirstAt(s: string, sub: string, j: int) {
    OccursAt(s, sub, j) && forall k :: 0 <= k < j ==> !OccursAt(s, sub, k)
  }

  ghost predicate Absent(s: string, sub: string) {
    forall k :: !OccursAt(s, sub, k)
  }

  lemma OccursLater(s: string, sub: string)
    requires s != ""
    ensures forall k :: k > 0 ==> (OccursAt(s, sub, k) <==> OccursAt(s[1..], sub, k - 1))
  {
    forall k | k > 0 && k + |sub| <= |s|
      ensures OccursAt(s, sub, k) <==> OccursAt(s[1..], sub, k - 1)
    {
      assert s[1..][k - 1..k - 1 + |sub|] == s[k..k + |sub|];
    }
  }

  lemma FirstLater(s: string, sub: string, r: int)
    requires s != "" && !OccursAt(s, sub, 0)
    requires if r >= 0 then FirstAt(s[1..], sub, r) else Absent(s[1..], sub)
    ensures if r >= 0 then FirstAt(s, sub, r + 1) else Absent(s, sub)
  {
    OccursLater(s, sub);
    if r >= 0 {
      assert OccursAt(s, sub, r + 1);
    } else {
      forall k
        ensures !OccursAt(s, sub, k)
      {
        assert k > 0 ==> !OccursAt(s[1..], sub, k - 1);
      }
    }
  }

  // strings.Index
  function Index(s: string, sub: string): (j: int)
    requires |sub| > 0
    ensures if j >= 0 then FirstAt(s, sub, j) else j == -1 && Absent(s, sub)
    decreases |s|
  {
    if OccursAt(s, sub, 0) then 0
    else if s == "" then -1
    else
      var r := Index(s[1..], sub);
      FirstLater(s, sub, r);
      if r < 0 then -1 else r + 1
  }

  lemma FirstIsIndex(s: string, sub: string, j: int)
    requires |sub| > 0 && FirstAt(s, sub, j)
    ensures Index(s, sub) == j
  {
  }

  // The length of the run of c at the start of t
  function Run(t: string, c: char): (n: nat)
    ensures n <= |t| && t[..n] == Repeat(c, n) && (n < |t| ==> t[n] != c)
    decreases |t|
  {
    if t == "" || t[0] != c then 0
    else
      var n := 1 + Run(t[1..], c);
      assert t[..n] == [c] + t[1..][..n - 1];
      n
  }

  lemma RunStarts(t: string, c: char)
    requires t != "" && t[0] == c
    ensures Run(t, c) > 0
  {
  }

  predicate IsDelimiter(c: char) {
    c == '*' || c == '~'
  }

  function PlainRun(t: string): (n: nat)
    ensures n <= |t| && (forall i :: 0 <= i < n ==> !IsDelimiter(t[i])) && (n < |t| ==> IsDelimiter(t[n]))
    decreases |t|
  {
    if t == "" || IsDelimiter(t[0]) then 0 else 1 + PlainRun(t[1..])
  }

  // ---------- parsing ----------

  // Where a strong or emphasised text that starts here ends, or -1 if none starts here
  function StrongEnd(t: string): int {
    if |t| > 2 && t[..2] == "**" && t[2] != ' ' then Index(t[2..], "**") else -1
  }

  function EmphasisEnd(t: string): int {
    if |t| > 1 && t[0] == '*' && t[1] != ' ' then Index(t[1..], "*") else -1
  }

  function Parse(t: string): seq<Node>
    decreases |t|
  {
    if t == "" then []
    else if t[0] == '~' then
      var count := Run(t, '~');
      var rest := t[count..];
      var j := Index(rest, Repeat('~', count));
      if j >= 0 then [Special(Parse(rest[..j]), count)] + Parse(rest[j + count..])
      else [Text(t[..count])] + Parse(rest)
    else if StrongEnd(t) >= 0 then
      var j := StrongEnd(t);
      [Strong(Parse(t[2..2 + j]))] + Parse(t[4 + j..])
    else if EmphasisEnd(t) >= 0 then
      var j := EmphasisEnd(t);
      [Emphasis(Parse(t[1..1 + j]))] + Parse(t[2 + j..])
    else
      var n := if IsDelimiter(t[0]) then 1 else PlainRun(t);
      [Text(t[..n])] + Parse(t[n..])
  }

  lemma ParseSpecial(t: string, count: nat, j: int)
    requires t != "" && t[0] == '~' && Run(t, '~') == count && j == Index(t[count..], Repeat('~', count))
    ensures j < 0 ==> Parse(t) == [Text(t[..count])] + Parse(t[count..])
    ensures j >= 0 ==> (count + j + count <= |t|
                        && Parse(t) == [Special(Parse(t[count..count + j]), count)] + Parse(t[count + j + count..]))
  {
    hide *;
    RunStarts(t, '~');
    if j < 0 {
      ParseTildesOnly(t, count, t[count..]);
    } else {
      IndexFits(t[count..], Repeat('~', count));
      Sliced(t, count, 0, j);
      Sliced(t, count, 0, j + count);
      ParseTildePair(t, count, t[count..], j);
    }
  }

  lemma ParseTildesOnly(t: string, count: nat, rest: string)
    requires t != "" && t[0] == '~' && Run(t, '~') == count > 0 && rest == t[count..] && Index(rest, Repeat('~', count)) < 0
    ensures Parse(t) == [Text(t[..count])] + Parse(rest)
  {
    hide Index, Run, FirstAt, Absent, OccursAt, Repeat, StrongEnd, EmphasisEnd, PlainRun, IsDelimiter;
  }

  lemma ParseTildePair(t: string, count: nat, rest: string, j: nat)
    requires t != "" && t[0] == '~' && Run(t, '~') == count > 0 && rest == t[count..] && Index(rest, Repeat('~', count)) == j
    requires j + count <= |rest|
    ensures Parse(t) == [Special(Parse(rest[..j]), count)] + Parse(rest[j + count..])
  {
    hide Index, Run, FirstAt, Absent, OccursAt, Repeat, StrongEnd, EmphasisEnd, PlainRun, IsDelimiter;
  }

  lemma IndexFits(s: string, sub: string)
    requires |sub| > 0 && Index(s, sub) >= 0
    ensures Index(s, sub) + |sub| <= |s|
  {
  }

  // Slices of a slice
  lemma Sliced(text: string, i: nat, lo: nat, hi: nat)
    requires i <= |text| && lo <= hi <= |text| - i
    ensures text[i..][lo..hi] == text[i + lo..i + hi]
    ensures text[i..][hi..] == text[i + hi..]
    ensures text[i..][..hi] == text[i..i + hi]
  {
  }

  method ParseInline(text: string) returns (nodes: seq<Node>)
    ensures nodes == Parse(text)
    decreases |text|, 2
  {
    hide Parse;
    nodes := [];
    var i := 0;
    assert text[0..] == text;
    while i < |text|
      invariant 0 <= i <= |text|
      invariant nodes + Parse(text[i..]) == Parse(text)
    {
      ghost var before := nodes;
      var node, next := ParseNode(text, i);
      assert before + ([node] + Parse(text[next..])) == before + [node] + Parse(text[next..]);
      nodes := nodes + [node];
      i := next;
    }
    assert text[|text|..] == "";
    ParseEmpty();
  }

  lemma ParseEmpty()
    ensures Parse("") == []
  {
  }

  // One turn of the loop of parseInline: the node that starts at i and where the next one starts.
  method ParseNode(text: string, i: nat) returns (node: Node, next: nat)
    requires i < |text|
    ensures i < next <= |text| && Parse(text[i..]) == [node] + Parse(text[next..])
    decreases |text|, 1
  {
    hide *;
    if text[i] == '~' {
      node, next := ParseTildes(text, i);
      return;
    }
    EndsAt(text, i);
    if i + 2 < |text| && text[i] == '*' && text[i + 1] == '*' && text[i + 2] != ' ' {
      var j := Index(text[i + 2..], "**");
      if j >= 0 {
        StrongAt(text, i, j);
        var inner := ParseInline(text[i + 2..i + 2 + j]);
        return Strong(inner), i + 4 + j;
      }
    }
    if text[i] == '*' && i + 1 < |text| && text[i + 1] != ' ' {
      var j := Index(text[i + 1..], "*");
      if j >= 0 {
        EmphasisAt(text, i, j);
        var inner := ParseInline(text[i + 1..i + 1 + j]);
        return Emphasis(inner), i + 2 + j;
      }
    }
    node, next := ParsePlain(text, i);
  }

  lemma EndsAt(text: string, i: nat)
    requires i < |text|
    ensures StrongEnd(text[i..]) ==
            if i + 2 < |text| && text[i] == '*' && text[i + 1] == '*' && text[i + 2] != ' '
            then Index(text[i + 2..], "**") else -1
    ensures EmphasisEnd(text[i..]) ==
            if text[i] == '*' && i + 1 < |text| && text[i + 1] != ' ' then Index(text[i + 1..], "*") else -1
  {
    hide *;
    StarEnds(text[i..]);
    if i + 2 < |text| {
      Sliced(text, i, 2, 2);
    }
    if i + 1 < |text| {
      Sliced(text, i, 1, 1);
    }
  }

  lemma StrongAt(text: string, i: nat, j: nat)
    requires i < |text| && text[i] != '~' && StrongEnd(text[i..]) == j
    ensures i + 4 + j <= |text|
    ensures Parse(text[i..]) == [Strong(Parse(text[i + 2..i + 2 + j]))] + Parse(text[i + 4 + j..])
  {
    hide *;
    StarEnds(text[i..]);
    ParseStrong(text[i..]);
    Sliced(text, i, 2, 2 + j);
    Sliced(text, i, 2, 4 + j);
  }

  lemma EmphasisAt(text: string, i: nat, j: nat)
    requires i < |text| && text[i] != '~' && StrongEnd(text[i..]) < 0 && EmphasisEnd(text[i..]) == j
    ensures i + 2 + j <= |text|
    ensures Parse(text[i..]) == [Emphasis(Parse(text[i + 1..i + 1 + j]))] + Parse(text[i + 2 + j..])
  {
    hide *;
    StarEnds(text[i..]);
    ParseEmphasis(text[i..]);
    Sliced(text, i, 1, 1 + j);
    Sliced(text, i, 1, 2 + j);
  }

  // The cases of a text that does not begin with a tilde, in the order they are tried.
  lemma ParseStars(t: string)
    requires t != "" && t[0] != '~'
    ensures StrongEnd(t) == if |t| > 2 && t[0] == '*' && t[1] == '*' && t[2] != ' ' then Index(t[2..], "**") else -1
    ensures EmphasisEnd(t) == if |t| > 1 && t[0] == '*' && t[1] != ' ' then Index(t[1..], "*") else -1
    ensures StrongEnd(t) >= 0 ==>
      4 + StrongEnd(t) <= |t| && Parse(t) == [Strong(Parse(t[2..2 + StrongEnd(t)]))] + Parse(t[4 + StrongEnd(t)..])
    ensures StrongEnd(t) < 0 && EmphasisEnd(t) >= 0 ==>
      2 + EmphasisEnd(t) <= |t| && Parse(t) == [Emphasis(Parse(t[1..1 + EmphasisEnd(t)]))] + Parse(t[2 + EmphasisEnd(t)..])
    ensures StrongEnd(t) < 0 && EmphasisEnd(t) < 0 ==>
      var n := if IsDelimiter(t[0]) then 1 else PlainRun(t);
      0 < n <= |t| && Parse(t) == [Text(t[..n])] + Parse(t[n..])
  {
    hide Parse, Index, PlainRun, IsDelimiter, StrongEnd, EmphasisEnd;
    StarEnds(t);
    if StrongEnd(t) >= 0 {
      ParseStrong(t);
    } else if EmphasisEnd(t) >= 0 {
      ParseEmphasis(t);
    } else {
      ParseText(t);
    }
  }

  lemma StarEnds(t: string)
    requires t != ""
    ensures StrongEnd(t) == if |t| > 2 && t[0] == '*' && t[1] == '*' && t[2] != ' ' then Index(t[2..], "**") else -1
    ensures EmphasisEnd(t) == if |t| > 1 && t[0] == '*' && t[1] != ' ' then Index(t[1..], "*") else -1
    ensures StrongEnd(t) >= 0 ==> 4 + StrongEnd(t) <= |t|
    ensures EmphasisEnd(t) >= 0 ==> 2 + EmphasisEnd(t) <= |t|
  {
    hide Index, FirstAt, Absent;
    assert |t| > 2 ==> (t[..2] == "**" <==> t[0] == '*' && t[1] == '*');
    if StrongEnd(t) >= 0 {
      IndexFits(t[2..], "**");
    }
    if EmphasisEnd(t) >= 0 {
      IndexFits(t[1..], "*");
    }
  }

  lemma ParseStrong(t: string)
    requires t != "" && t[0] != '~' && 0 <= StrongEnd(t) <= |t| - 4
    ensures Parse(t) == [Strong(Parse(t[2..2 + StrongEnd(t)]))] + Parse(t[4 + StrongEnd(t)..])
  {
    hide Index, Run, Repeat, PlainRun, IsDelimiter, StrongEnd, EmphasisEnd;
  }

  lemma ParseEmphasis(t: string)
    requires t != "" && t[0] != '~' && StrongEnd(t) < 0 && 0 <= EmphasisEnd(t) <= |t| - 2
    ensures Parse(t) == [Emphasis(Parse(t[1..1 + EmphasisEnd(t)]))] + Parse(t[2 + EmphasisEnd(t)..])
  {
    hide Index, Run, Repeat, PlainRun, IsDelimiter, StrongEnd, EmphasisEnd;
  }

  lemma ParseText(t: string)
    requires t != "" && t[0] != '~' && StrongEnd(t) < 0 && EmphasisEnd(t) < 0
    ensures var n := if IsDelimiter(t[0]) then 1 else PlainRun(t);
      0 < n <= |t| && Parse(t) == [Text(t[..n])] + Parse(t[n..])
  {
    hide Index, Run, Repeat, IsDelimiter, StrongEnd, EmphasisEnd;
  }

  method ParsePlain(text: string, i: nat) returns (node: Node, next: nat)
    requires i < |text| && text[i] != '~' && StrongEnd(text[i..]) < 0 && EmphasisEnd(text[i..]) < 0
    ensures i < next <= |text| && Parse(text[i..]) == [node] + Parse(text[next..])
  {
    hide Parse, StrongEnd, EmphasisEnd;
    ghost var t := text[i..];
    ParseStars(t);
    var j := i;
    while j < |text| && text[j] != '*' && text[j] != '~'
      invariant i <= j <= |text| && forall k :: i <= k < j ==> !IsDelimiter(text[k])
    {
      j := j + 1;
    }
    if j == i {
      Sliced(text, i, 0, 1);
      return Text(text[i..i + 1]), i + 1;
    }
    PlainRunIs(t, j - i);
    Sliced(text, i, 0, j - i);
    return Text(text[i..j]), j;
  }

  method ParseTildes(text: string, i0: nat) returns (node: Node, next: nat)
    requires i0 < |text| && text[i0] == '~'
    ensures i0 < next <= |text| && Parse(text[i0..]) == [node] + Parse(text[next..])
    decreases |text|, 0
  {
    hide Parse, Index, Run;
    ghost var t := text[i0..];
    var i := i0;
    while i < |text| && text[i] == '~'
      invariant i0 <= i <= |text| && forall k :: i0 <= k < i ==> text[k] == '~'
    {
      i := i + 1;
    }
    var count := i - i0;
    RunIs(t, '~', count);
    Sliced(text, i0, 0, count);
    var delim := Repeat('~', count);
    var j := Index(text[i..], delim);
    ParseSpecial(t, count, j);
    if j >= 0 {
      Sliced(text, i0, count, count + j);
      Sliced(text, i0, count, count + j + count);
      var childNodes := ParseInline(text[i..i + j]);
      return Special(childNodes, count), i + j + count;
    }
    return Text(text[i0..i]), i;
  }

  lemma {:induction false} RunIs(t: string, c: char, n: nat)
    requires n <= |t| && (forall k :: 0 <= k < n ==> t[k] == c) && (n < |t| ==> t[n] != c)
    ensures Run(t, c) == n
    decreases n
  {
    if n > 0 {
      RunIs(t[1..], c, n - 1);
    }
  }

  lemma {:induction false} PlainRunIs(t: string, n: nat)
    requires n <= |t| && (forall k :: 0 <= k < n ==> !IsDelimiter(t[k])) && (n < |t| ==> IsDelimiter(t[n]))
    ensures PlainRun(t) == n
    decreases n
  {
    if n > 0 {
      PlainRunIs(t[1..], n - 1);
    }
  }

  // ---------- printing undoes parsing ----------

  lemma PrintCons(n: Node, ns: seq<Node>)
    ensures Print([n] + ns) == String(n, 0) + Print(ns)
    ensures n.Text? ==> String(n, 0) == n.content
    ensures n.Strong? ==> String(n, 0) == "**" + Print(n.nodeChildren) + "**"
    ensures n.Emphasis? ==> String(n, 0) == "*" + Print(n.nodeChildren) + "*"
    ensures n.Special? ==> String(n, 0) == Repeat('~', n.level) + Print(n.nodeChildren) + Repeat('~', n.level)
  {
    assert ([n] + ns)[1..] == ns;
    if !n.Text? {
      DepthIrrelevant(n.nodeChildren, 0, 1);
    }
  }

  lemma {:induction false} PrintParse(t: string)
    ensures Print(Parse(t)) == t
    decreases |t|
  {
    hide Index, Run, PlainRun, StrongEnd, EmphasisEnd, Print, String, Parse;
    if t == "" {
      PrintParseEmpty();
    } else if t[0] == '~' {
      PrintParseTildes(t);
    } else {
      ParseStars(t);
      if StrongEnd(t) >= 0 {
        var j := StrongEnd(t);
        PrintParse(t[2..2 + j]);
        PrintParse(t[4 + j..]);
        PrintCons(Strong(Parse(t[2..2 + j])), Parse(t[4 + j..]));
        StrongText(t, j);
      } else if EmphasisEnd(t) >= 0 {
        var j := EmphasisEnd(t);
        PrintParse(t[1..1 + j]);
        PrintParse(t[2 + j..]);
        PrintCons(Emphasis(Parse(t[1..1 + j])), Parse(t[2 + j..]));
        EmphasisText(t, j);
      } else {
        var n := if IsDelimiter(t[0]) then 1 else PlainRun(t);
        PrintParse(t[n..]);
        PrintCons(Text(t[..n]), Parse(t[n..]));
        assert t == t[..n] + t[n..];
      }
    }
  }

  lemma PrintParseEmpty()
    ensures Print(Parse("")) == ""
  {
  }

  lemma {:induction false} PrintParseTildes(t: string)
    requires t != "" && t[0] == '~'
    ensures Print(Parse(t)) == t
    decreases |t|, 0
  {
    hide Index, PlainRun, Print, String, Parse;
    var count := Run(t, '~');
    var j := Index(t[count..], Repeat('~', count));
    ParseSpecial(t, count, j);
    assert t == t[..count] + t[count..];
    if j >= 0 {
      PrintParse(t[count..count + j]);
      PrintParse(t[count + j + count..]);
      PrintCons(Special(Parse(t[count..count + j]), count), Parse(t[count + j + count..]));
      SpecialText(t, count, j);
    } else {
      PrintParse(t[count..]);
      PrintCons(Text(t[..count]), Parse(t[count..]));
    }
  }

  // How the matched pieces make up the text.
  lemma StrongText(t: string, j: int)
    requires j >= 0 && StrongEnd(t) == j
    ensures 4 + j <= |t| && FirstAt(t[2..], "**", j) && t[2] != ' '
    ensures t == "**" + t[2..2 + j] + "**" + t[4 + j..] && t[2..] == t[2..2 + j] + "**" + t[4 + j..]
  {
    assert t[2..][j..j + 2] == "**";
    assert t[2..] == t[2..2 + j] + t[2..][j..j + 2] + t[4 + j..];
    assert t == t[..2] + t[2..];
  }

  lemma EmphasisText(t: string, j: int)
    requires j >= 0 && EmphasisEnd(t) == j
    ensures 2 + j <= |t| && FirstAt(t[1..], "*", j) && t[1] != ' '
    ensures t == "*" + t[1..1 + j] + "*" + t[2 + j..] && t[1..] == t[1..1 + j] + "*" + t[2 + j..]
  {
    assert t[1..][j..j + 1] == "*";
    assert t[1..] == t[1..1 + j] + t[1..][j..j + 1] + t[2 + j..];
    assert t == [t[0]] + t[1..];
  }

  lemma SpecialText(t: string, count: nat, j: int)
    requires 0 < count <= |t| && t[..count] == Repeat('~', count) && j >= 0 && j == Index(t[count..], Repeat('~', count))
    ensures count + j + count <= |t| && FirstAt(t[count..], Repeat('~', count), j)
    ensures t[count..] == t[count..count + j] + Repeat('~', count) + t[count + j + count..]
    ensures t == Repeat('~', count) + t[count..count + j] + Repeat('~', count) + t[count + j + count..]
  {
    hide FirstAt, OccursAt, Index, Repeat;
    var r := t[count..];
    IndexAt(r, Repeat('~', count));
    Sliced(t, count, 0, j);
    Sliced(t, count, 0, j + count);
    ThreeParts(r, j, j + count);
    ThreeParts(t, count, count);
  }

  lemma ThreeParts(s: string, a: nat, b: nat)
    requires a <= b <= |s|
    ensures s == s[..a] + s[a..b] + s[b..]
    ensures s == s[..a] + s[a..]
  {
  }

  lemma IndexAt(s: string, sub: string)
    requires |sub| > 0 && Index(s, sub) >= 0
    ensures Index(s, sub) + |sub| <= |s| && s[Index(s, sub)..Index(s, sub) + |sub|] == sub && FirstAt(s, sub, Index(s, sub))
  {
  }

  // ---------- parsing undoes printing, on the trees that parsing yields ----------

  // What the text after a node, and its own inner text, must be for it to be read back as itself.
  ghost predicate Fits(n: Node, after: string) {
    match n
    case Text(s) =>
      || (s != "" && (forall i :: 0 <= i < |s| ==> !IsDelimiter(s[i])) && (after != "" ==> IsDelimiter(after[0])))
      || (s == "*" && (after == "" || after[0] == ' ' || Absent(after, "*")))
      || (s != "" && s == Repeat('~', |s|) && (after != "" ==> after[0] != '~') && Absent(after, s))
    case Strong(c) =>
      var inner := Print(c);
      (inner != "" ==> inner[0] != ' ') && FirstAt(inner + "**" + after, "**", |inner|)
    case Emphasis(c) =>
      var inner := Print(c);
      if inner == "" then |after| == 0 || after[0] == ' ' || Absent(after, "**")
      else inner[0] != ' ' && FirstAt(inner + "*" + after, "*", |inner|)
    case Special(c, level) =>
      var inner := Print(c);
      level > 0 && inner != "" && inner[0] != '~' && FirstAt(inner + Repeat('~', level) + after, Repeat('~', level), |inner|)
  }

  ghost predicate Canonical(ns: seq<Node>) {
    ns == [] || (CanonicalNode(ns[0]) && Fits(ns[0], Print(ns[1..])) && Canonical(ns[1..]))
  }

  ghost predicate CanonicalNode(n: Node) {
    n.Text? || Canonical(n.nodeChildren)
  }

  lemma {:induction false} ParsePrint(ns: seq<Node>)
    requires Canonical(ns)
    ensures Parse(Print(ns)) == ns
    decreases ns
  {
    hide Index, Run, PlainRun, StrongEnd, EmphasisEnd, Print, String, Parse, FirstAt, Absent, Repeat;
    if ns == [] {
      PrintParseEmpty();
      ParseEmpty();
      PrintEmpty();
    } else {
      var n, after := ns[0], Print(ns[1..]);
      assert ns == [n] + ns[1..];
      PrintCons(n, ns[1..]);
      ParsePrint(ns[1..]);
      if !n.Text? {
        ParsePrint(n.nodeChildren);
      }
      match n {
        case Text(s) => TextBack(s, after);
        case Strong(c) => StrongBack(Print(c), after);
        case Emphasis(c) => EmphasisBack(Print(c), after);
        case Special(c, level) => SpecialBack(Print(c), level, after);
      }
    }
  }

  lemma PrintEmpty()
    ensures Print([]) == ""
  {
  }

  lemma TextBack(s: string, after: string)
    requires Fits(Text(s), after)
    ensures Parse(s + after) == [Text(s)] + Parse(after)
  {
    hide Parse, Print;
    var t := s + after;
    assert t[0] == s[0] && t[..|s|] == s && t[|s|..] == after;
    if s[0] == '~' {
      assert s == Repeat('~', |s|);
      RunIs(t, '~', |s|);
      ParseSpecial(t, |s|, Index(t[|s|..], Repeat('~', |s|)));
    } else if s[0] == '*' {
      assert s == "*";
      assert t[1..] == after;
      StarAlone(t, after);
    } else {
      ParseStars(t);
      PlainRunIs(t, |s|);
    }
  }

  lemma StarAlone(t: string, after: string)
    requires t == "*" + after && (after == "" || after[0] == ' ' || Absent(after, "*"))
    ensures Parse(t) == [Text("*")] + Parse(after)
  {
    hide Parse;
    ParseStars(t);
    assert t[1..] == after && t[..1] == "*";
    if after != "" && after[0] == '*' {
      assert OccursAt(after, "*", 0);
    }
  }

  lemma StrongBack(inner: string, after: string)
    requires (inner != "" ==> inner[0] != ' ') && FirstAt(inner + "**" + after, "**", |inner|)
    ensures Parse("**" + inner + "**" + after) == [Strong(Parse(inner))] + Parse(after)
  {
    hide *;
    var t := "**" + inner + "**" + after;
    StarEnds(t);
    assert t[2..] == inner + "**" + after;
    FirstIsIndex(t[2..], "**", |inner|);
    assert t[2] == (inner + "**")[0];
    ParseStrong(t);
    assert t[2..2 + |inner|] == inner && t[4 + |inner|..] == after;
  }

  lemma EmphasisBack(inner: string, after: string)
    requires if inner == "" then |after| == 0 || after[0] == ' ' || Absent(after, "**")
             else inner[0] != ' ' && FirstAt(inner + "*" + after, "*", |inner|)
    ensures Parse("*" + inner + "*" + after) == [Emphasis(Parse(inner))] + Parse(after)
  {
    hide *;
    var t := "*" + inner + "*" + after;
    assert StrongEnd(t) < 0 && EmphasisEnd(t) == |inner| by {
      if inner == "" {
        assert t == "**" + after;
        EmptyEmphasisEnds(after);
      } else {
        FullEmphasisEnds(inner, after);
      }
    }
    ParseEmphasis(t);
    assert t[1..1 + |inner|] == inner && t[2 + |inner|..] == after;
  }

  lemma EmptyEmphasisEnds(after: string)
    requires |after| == 0 || after[0] == ' ' || Absent(after, "**")
    ensures StrongEnd("**" + after) < 0 && EmphasisEnd("**" + after) == 0
  {
    var t := "**" + after;
    assert t[2..] == after && t[1..] == "*" + after;
    assert OccursAt(t[1..], "*", 0);
    FirstIsIndex(t[1..], "*", 0);
  }

  lemma FullEmphasisEnds(inner: string, after: string)
    requires inner != "" && inner[0] != ' ' && FirstAt(inner + "*" + after, "*", |inner|)
    ensures StrongEnd("*" + inner + "*" + after) < 0 && EmphasisEnd("*" + inner + "*" + after) == |inner|
  {
    hide Index;
    var t := "*" + inner + "*" + after;
    var rest := inner + "*" + after;
    assert t[1..] == rest && t[1] == rest[0] == inner[0];
    assert !OccursAt(rest, "*", 0) && rest[0..1] == [inner[0]];
    FirstIsIndex(rest, "*", |inner|);
  }

  lemma SpecialBack(inner: string, level: nat, after: string)
    requires level > 0 && inner != "" && inner[0] != '~'
    requires FirstAt(inner + Repeat('~', level) + after, Repeat('~', level), |inner|)
    ensures Parse(Repeat('~', level) + inner + Repeat('~', level) + after) == [Special(Parse(inner), level)] + Parse(after)
  {
    hide Parse, Index, FirstAt, Run, Repeat;
    var delim := Repeat('~', level);
    var t := delim + inner + delim + after;
    assert t[0] == delim[0] && t[level] == inner[0];
    RunIs(t, '~', level);
    assert t[level..] == inner + delim + after;
    FirstIsIndex(t[level..], delim, |inner|);
    ParseSpecial(t, level, |inner|);
    assert t[level..level + |inner|] == inner && t[level + |inner| + level..] == after;
  }

  lemma {:induction false} ParseCanonical(t: string)
    ensures Canonical(Parse(t))
    decreases |t|
  {
    hide Index, Run, PlainRun, StrongEnd, EmphasisEnd, Print, String, Parse, FirstAt, Absent, Fits;
    if t == "" {
      ParseEmpty();
    } else if t[0] == '~' {
      ParseCanonicalTildes(t);
    } else {
      ParseStars(t);
      if StrongEnd(t) >= 0 {
        var j := StrongEnd(t);
        ParseCanonical(t[2..2 + j]);
        ParseCanonical(t[4 + j..]);
        StrongFits(t, j);
        CanonicalCons(Strong(Parse(t[2..2 + j])), t[4 + j..]);
      } else if EmphasisEnd(t) >= 0 {
        var j := EmphasisEnd(t);
        ParseCanonical(t[1..1 + j]);
        ParseCanonical(t[2 + j..]);
        EmphasisFits(t, j);
        CanonicalCons(Emphasis(Parse(t[1..1 + j])), t[2 + j..]);
      } else {
        var n := if IsDelimiter(t[0]) then 1 else PlainRun(t);
        ParseCanonical(t[n..]);
        TextFits(t, n);
        CanonicalCons(Text(t[..n]), t[n..]);
      }
    }
  }

  lemma CanonicalCons(n: Node, after: string)
    requires CanonicalNode(n) && Fits(n, after) && Canonical(Parse(after))
    ensures Canonical([n] + Parse(after))
  {
    hide Fits, Parse, CanonicalNode, Print;
    var ns := [n] + Parse(after);
    assert ns[1..] == Parse(after);
    PrintParse(after);
  }

  lemma {:induction false} ParseCanonicalTildes(t: string)
    requires t != "" && t[0] == '~'
    ensures Canonical(Parse(t))
    decreases |t|, 0
  {
    hide Index, PlainRun, Print, String, Parse, FirstAt, Absent, Canonical, Fits;
    var count := Run(t, '~');
    var j := Index(t[count..], Repeat('~', count));
    ParseSpecial(t, count, j);
    if j >= 0 {
      ParseCanonical(t[count..count + j]);
      ParseCanonical(t[count + j + count..]);
      SpecialFits(t, count, j);
      CanonicalCons(Special(Parse(t[count..count + j]), count), t[count + j + count..]);
    } else {
      ParseCanonical(t[count..]);
      TildesFit(t, count);
      CanonicalCons(Text(t[..count]), t[count..]);
    }
  }

  lemma StrongFits(t: string, j: int)
    requires j >= 0 && StrongEnd(t) == j
    ensures 4 + j <= |t| && Fits(Strong(Parse(t[2..2 + j])), t[4 + j..])
  {
    hide FirstAt, Parse, Print;
    StrongText(t, j);
    PrintParse(t[2..2 + j]);
  }

  lemma EmphasisFits(t: string, j: int)
    requires j >= 0 && EmphasisEnd(t) == j && StrongEnd(t) < 0
    ensures 2 + j <= |t| && Fits(Emphasis(Parse(t[1..1 + j])), t[2 + j..])
  {
    hide Parse, Print;
    EmphasisText(t, j);
    PrintParse(t[1..1 + j]);
    if j == 0 && |t| > 2 {
      assert t[1..][0..1] == "*";
      assert t[..2] == "**";
    }
  }

  lemma SpecialFits(t: string, count: nat, j: int)
    requires t != "" && t[0] == '~' && Run(t, '~') == count && j >= 0 && j == Index(t[count..], Repeat('~', count))
    ensures count + j + count <= |t| && Fits(Special(Parse(t[count..count + j]), count), t[count + j + count..])
  {
    hide FirstAt, Parse, Print, Index, Run, Repeat;
    SpecialText(t, count, j);
    SpecialStarts(t, count, j);
    PrintParse(t[count..count + j]);
  }

  // The inner text is not empty and does not begin with a tilde, since the run of tildes was the longest.
  lemma SpecialStarts(t: string, count: nat, j: int)
    requires t != "" && t[0] == '~' && Run(t, '~') == count && j >= 0 && j == Index(t[count..], Repeat('~', count))
    ensures count > 0 && j > 0 && count < |t| && t[count] != '~'
  {
    hide Run, Repeat, Index;
    RunStarts(t, '~');
    var delim := Repeat('~', count);
    IndexAt(t[count..], delim);
    assert t[count..][j] == t[count..][j..j + count][0] == delim[0];
    assert t[count + j] == t[count..][j];
  }

  lemma TextFits(t: string, n: nat)
    requires t != "" && t[0] != '~' && StrongEnd(t) < 0 && EmphasisEnd(t) < 0
    requires n == if IsDelimiter(t[0]) then 1 else PlainRun(t)
    ensures n <= |t| && Fits(Text(t[..n]), t[n..])
  {
    hide Print;
    if IsDelimiter(t[0]) {
      assert t[..1] == "*";
    }
  }

  lemma TildesFit(t: string, count: nat)
    requires t != "" && t[0] == '~' && Run(t, '~') == count && Index(t[count..], Repeat('~', count)) < 0
    ensures Fits(Text(t[..count]), t[count..])
  {
    hide Print;
  }

  // The trees that survive printing and parsing are exactly the canonical ones.
  lemma CanonicalIsFixed(ns: seq<Node>)
    ensures Parse(Print(ns)) == ns <==> Canonical(ns)
  {
    hide Parse, Canonical;
    ParseCanonical(Print(ns));
    if Canonical(ns) {
      ParsePrint(ns);
    }
  }

  // ---------- what the delimiters mean ----------

  ghost predicate Plain(s: string) {
    s != "" && forall i :: 0 <= i < |s| ==> s[i] != '*' && s[i] != '~'
  }

  lemma PlainText(s: string, after: string)
    requires Plain(s) && (after == "" || after[0] == '*')
    ensures Parse(s + after) == [Text(s)] + Parse(after)
    ensures Parse(s) == [Text(s)]
  {
    hide Parse;
    ParseEmpty();
    TextBack(s, after);
    TextBack(s, "");
    assert s + "" == s;
  }

  // A delimiter is first found where the plain text before it ends.
  lemma DelimiterFound(s: string, delim: string, c: char)
    requires Plain(s) && delim != "" && (c == '*' || c == '~') && forall i :: 0 <= i < |delim| ==> delim[i] == c
    ensures FirstAt(s + delim + "", delim, |s|)
  {
    var t := s + delim + "";
    assert t[|s|..|s| + |delim|] == delim;
    forall k | 0 <= k < |s|
      ensures !OccursAt(t, delim, k)
    {
      assert t[k] == s[k] != delim[0];
      assert k + |delim| <= |t| ==> t[k..k + |delim|][0] == t[k];
    }
  }

  // Plain text between two asterisks is strong, between single ones emphasised, and between runs of
  // tildes special, of the level of the runs - unless, for the asterisks, it begins with a space.
  lemma DelimitedText(s: string, level: nat)
    requires Plain(s) && level > 0
    ensures s[0] != ' ' ==> Parse("**" + s + "**") == [Strong([Text(s)])]
    ensures s[0] != ' ' ==> Parse("*" + s + "*") == [Emphasis([Text(s)])]
    ensures s[0] == ' ' ==> Parse("**" + s + "**") == [Emphasis([]), Text(s), Emphasis([])]
    ensures s[0] == ' ' ==> Parse("*" + s + "*") == [Text("*"), Text(s), Text("*")]
    ensures Parse(Repeat('~', level) + s + Repeat('~', level)) == [Special([Text(s)], level)]
  {
    hide *;
    PlainText(s, "");
    ParseEmpty();
    DelimiterFound(s, Repeat('~', level), '~');
    PlainStart(s);
    SpecialBack(s, level, "");
    assert Repeat('~', level) + s + Repeat('~', level) + "" == Repeat('~', level) + s + Repeat('~', level);
    if s[0] != ' ' {
      DelimiterFound(s, "**", '*');
      DelimiterFound(s, "*", '*');
      StrongBack(s, "");
      EmphasisBack(s, "");
      assert "**" + s + "**" + "" == "**" + s + "**" && "*" + s + "*" + "" == "*" + s + "*";
    } else {
      AfterSpace(s);
    }
  }

  lemma PlainStart(s: string)
    requires Plain(s)
    ensures s != "" && s[0] != '~' && s[0] != '*'
  {
  }

  lemma AfterSpace(s: string)
    requires Plain(s) && s[0] == ' '
    ensures Parse("**" + s + "**") == [Emphasis([]), Text(s), Emphasis([])]
    ensures Parse("*" + s + "*") == [Text("*"), Text(s), Text("*")]
  {
    hide *;
    ParseEmpty();
    PlainText(s, "**");
    PlainText(s, "*");
    LoneStars();
    EmphasisBack("", s + "**");
    assert "*" + "" + "*" + (s + "**") == "**" + s + "**";
    StarAlone("*" + s + "*", s + "*");
    assert "*" + s + "*" == "*" + (s + "*");
  }

  lemma LoneStars()
    ensures Parse("**") == [Emphasis([])] && Parse("*") == [Text("*")]
  {
    hide Parse;
    ParseEmpty();
    EmphasisBack("", "");
    StarAlone("*", "");
    assert "*" + "" + "*" + "" == "**" && "*" + "" == "*";
  }
}
