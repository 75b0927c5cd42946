/** `getCompanyName` of the ingestion route: an ordered chain of extraction
    strategies whose first success wins, falling back to `N/A`. */
module Company {
  import opened Wrappers
  import opened Text
  import opened Feed

  const Label: string := "<b>Company:</b>"
  const Break: string := "<br>"

  /** The sentinel for an unknown company. */
  const Unknown: string := "N/A"

  // ------------------------------------ /<b>Company:<\/b>\s*(.*?)<br>/

  predicate BreakAt(s: string, x: int) {
    0 <= x && x + |Break| <= |s| && s[x..x + |Break|] == Break
  }

  predicate NoTerminator(s: string) {
    forall i :: 0 <= i < |s| ==> !IsLineTerminator(s[i])
  }

  /** The pattern can match at `p` with `\s*` spanning `[p + |Label|, q)` and
      the group `(.*?)` capturing `s[q..x]`. */
  ghost predicate ShapeAt(s: string, p: int, q: int, x: int) {
    && 0 <= p && p + |Label| <= q <= x && x + |Break| <= |s|
    && s[p..p + |Label|] == Label
    && AllSpace(s[p + |Label|..q])
    && NoTerminator(s[q..x])
    && BreakAt(s, x)
  }

  ghost predicate CanMatchAt(s: string, p: int) {
    exists q, x :: ShapeAt(s, p, q, x)
  }

  /** The lazy `(.*?)<br>` from `y`: the first `<br>` reached before any
      line terminator. */
  function LazyBreak(s: string, y: nat): (r: Option<nat>)
    requires y <= |s|
    ensures r.Some? ==> y <= r.value && BreakAt(s, r.value) && NoTerminator(s[y..r.value])
    ensures r.Some? ==> forall z :: y <= z < r.value ==> !BreakAt(s, z)
    ensures r.None? ==> forall x :: y <= x && BreakAt(s, x) ==> !NoTerminator(s[y..x])
    decreases |s| - y
  {
    if BreakAt(s, y) then Some(y)
    else if y < |s| && !IsLineTerminator(s[y]) then
      var r := LazyBreak(s, y + 1);
      assert forall x :: y < x <= |s| ==> s[y..x] == [s[y]] + s[y + 1..x];
      r
    else None
  }

  /** Giving back white space to `(.*?)` never helps: if the pattern can match
      at `p` at all, it matches with `\s*` taking the whole white-space run. */
  lemma GreedySpaceSuffices(s: string, p: nat)
    requires p + |Label| <= |s| && s[p..p + |Label|] == Label
    ensures CanMatchAt(s, p) ==> LazyBreak(s, SkipSpace(s, p + |Label|)).Some?
  {
    var lo := p + |Label|;
    var q0 := SkipSpace(s, lo);
    if CanMatchAt(s, p) {
      var q, x :| ShapeAt(s, p, q, x);
      assert forall i :: lo <= i < q ==> IsSpace(s[i]) by {
        forall i | lo <= i < q ensures IsSpace(s[i]) { assert s[lo..q][i - lo] == s[i]; }
      }
      assert forall i :: lo <= i < q0 ==> IsSpace(s[i]) by {
        forall i | lo <= i < q0 ensures IsSpace(s[i]) { assert s[lo..q0][i - lo] == s[i]; }
      }
      assert s[x] == '<' by { assert s[x] == s[x..x + |Break|][0]; }
      assert q <= q0;
      assert q0 <= x;
      assert NoTerminator(s[q0..x]) by {
        forall i | 0 <= i < x - q0 ensures !IsLineTerminator(s[q0..x][i]) {
          assert s[q0..x][i] == s[q..x][i + q0 - q];
        }
      }
    }
  }

  /** Where a match of the pattern starts, the end of `\s*` and of the group. */
  datatype Span = Span(start: nat, capStart: nat, capEnd: nat)

  /** The leftmost match starting at or after `from`, with the greedy `\s*`
      and the lazy group. */
  function FindLabel(s: string, from: nat): (r: Option<Span>)
    ensures r.Some? ==> from <= r.value.start && ShapeAt(s, r.value.start, r.value.capStart, r.value.capEnd)
    ensures r.Some? ==> r.value.capStart == |s| || !IsSpace(s[r.value.capStart])
    ensures r.Some? ==> forall z :: r.value.capStart <= z < r.value.capEnd ==> !BreakAt(s, z)
    ensures r.Some? ==> forall p :: from <= p < r.value.start ==> !CanMatchAt(s, p)
    ensures r.None? ==> forall p :: from <= p ==> !CanMatchAt(s, p)
    decreases |s| + 1 - from
  {
    if from + |Label| > |s| then None
    else if s[from..from + |Label|] == Label then
      var q := SkipSpace(s, from + |Label|);
      match LazyBreak(s, q)
      case Some(x) => Some(Span(from, q, x))
      case None =>
        GreedySpaceSuffices(s, from);
        FindLabel(s, from + 1)
    else FindLabel(s, from + 1)
  }

  /** `match[1]` of `content.match(/<b>Company:<\/b>\s*(.*?)<br>/)`, or
      `None` when there is no match. */
  function LabelCapture(s: string): Option<string> {
    match FindLabel(s, 0)
    case Some(m) => Some(s[m.capStart..m.capEnd])
    case None => None
  }

  // --------------------------------------------------------- strategies

  /** `item.company`, when truthy. */
  function FromCompanyField(item: Item): Option<string> {
    if IsTruthy(item.company) then item.company else None
  }

  /** `item['dc:creator']`, when truthy. */
  function FromCreator(item: Item): Option<string> {
    if IsTruthy(item.creator) then item.creator else None
  }

  /** `item.title.split(':')[0].trim()`, when the title contains a colon. */
  function FromTitle(item: Item): Option<string> {
    if item.title.Some? && ':' in item.title.value then Some(Trim(Before(item.title.value, ':')))
    else None
  }

  /** The trimmed capture of the labelled line, when the content is truthy
      and the capture is not empty. */
  function FromContent(item: Item): Option<string> {
    if IsTruthy(item.content) then
      match LabelCapture(item.content.value)
      case Some(c) => if c != "" then Some(Trim(c)) else None
      case None => None
    else None
  }

  /** The strategies in the order `getCompanyName` tries them. */
  function Strategies(item: Item): seq<Option<string>> {
    [FromCompanyField(item), FromCreator(item), FromTitle(item), FromContent(item)]
  }

  /** The first present value. */
  function FirstSome(opts: seq<Option<string>>): (r: Option<string>)
    ensures r.None? <==> forall i :: 0 <= i < |opts| ==> opts[i].None?
    ensures r.Some? ==> exists i :: 0 <= i < |opts| && opts[i] == r &&
                                    forall j :: 0 <= j < i ==> opts[j].None?
  {
    if |opts| == 0 then None
    else if opts[0].Some? then opts[0]
    else
      var r := FirstSome(opts[1..]);
      assert forall i :: 1 <= i < |opts| ==> opts[i] == opts[1..][i - 1];
      r
  }

  /** `getCompanyName`. */
  function CompanyName(item: Item): string {
    FirstSome(Strategies(item)).GetOr(Unknown)
  }

  /** The name is the first strategy's success, or `N/A` when all fail. */
  lemma CompanyNameFirstSuccess(item: Item)
    ensures (forall i :: 0 <= i < 4 ==> Strategies(item)[i].None?) ==> CompanyName(item) == Unknown
    ensures forall i :: 0 <= i < 4 && Strategies(item)[i].Some? && (forall j :: 0 <= j < i ==> Strategies(item)[j].None?)
              ==> CompanyName(item) == Strategies(item)[i].value
  {
  }

  /** A non-empty `company` field wins over everything else. */
  lemma CompanyFieldFirst(item: Item)
    requires item.company.Some? && item.company.value != ""
    ensures CompanyName(item) == item.company.value
  {
  }

  /** Next comes a non-empty `dc:creator`. */
  lemma CreatorSecond(item: Item)
    requires !IsTruthy(item.company)
    requires item.creator.Some? && item.creator.value != ""
    ensures CompanyName(item) == item.creator.value
  {
    assert FirstSome(Strategies(item)) == FirstSome(Strategies(item)[1..]);
  }

  /** Next, a title with a colon gives the trimmed text before its first
      colon, even when that is empty. */
  lemma TitleThird(item: Item, k: nat)
    requires !IsTruthy(item.company) && !IsTruthy(item.creator)
    requires item.title.Some? && k < |item.title.value|
    requires item.title.value[k] == ':' && ':' !in item.title.value[..k]
    ensures CompanyName(item) == Trim(item.title.value[..k])
  {
    var t := item.title.value;
    assert ':' in t;
    var b := Before(t, ':');
    assert forall i :: 0 <= i < k ==> t[i] != ':' by {
      forall i | 0 <= i < k ensures t[i] != ':' { assert t[i] == t[..k][i]; }
    }
    assert forall i :: 0 <= i < |b| ==> t[i] != ':' by {
      forall i | 0 <= i < |b| ensures t[i] != ':' { assert t[i] == b[i]; }
    }
    assert |b| == k;
    assert FromTitle(item) == Some(Trim(t[..k]));
    assert FirstSome(Strategies(item)) == FirstSome(Strategies(item)[2..]);
  }

  /** Last, the labelled line of the content; an empty capture, or no
      match, gives `N/A`. */
  lemma ContentLast(item: Item)
    requires !IsTruthy(item.company) && !IsTruthy(item.creator)
    requires item.title.None? || ':' !in item.title.value
    ensures !IsTruthy(item.content) ==> CompanyName(item) == Unknown
    ensures IsTruthy(item.content) ==>
      CompanyName(item) == match LabelCapture(item.content.value)
        case Some(c) => if c != "" then Trim(c) else Unknown
        case None => Unknown
  {
    var st := Strategies(item);
    assert st[0].None? && st[1].None? && st[2].None?;
    assert FirstSome(st) == FirstSome(st[1..]);
    assert FirstSome(st[1..]) == FirstSome(st[2..]);
    assert FirstSome(st[2..]) == FirstSome(st[3..]);
    assert st[3..][1..] == [];
    assert CompanyName(item) == FromContent(item).GetOr(Unknown);
  }

  /** The structured field wins over the title heuristic: company `Acme`
      with title `Globex: Engineer` gives `Acme`. */
  lemma AcmeExample(item: Item)
    requires item.company == Some("Acme") && item.title == Some("Globex: Engineer")
    ensures CompanyName(item) == "Acme"
  {
  }

  const InitechLine: string := "<b>Company:</b> Initech<br>"

  lemma InitechSpaces()
    ensures SkipSpace(InitechLine, 15) == 16
  {
    assert IsSpace(InitechLine[15]) && !IsSpace(InitechLine[16]);
  }

  lemma BreakStartsWithBracket(s: string, x: int)
    requires BreakAt(s, x)
    ensures s[x] == '<'
  {
    assert s[x] == s[x..x + |Break|][0];
  }

  lemma InitechBreak()
    ensures LazyBreak(InitechLine, 16) == Some(23)
  {
    var s := InitechLine;
    assert s[16..23] == "Initech" && s[23..27] == Break;
    forall z | 16 <= z < 23 ensures !BreakAt(s, z) && !IsLineTerminator(s[z]) {
      assert s[z] == "Initech"[z - 16];
      if BreakAt(s, z) { BreakStartsWithBracket(s, z); }
    }
    assert LazyBreak(s, 23) == Some(23);
    assert LazyBreak(s, 22) == Some(23);
    assert LazyBreak(s, 21) == Some(23);
    assert LazyBreak(s, 20) == Some(23);
    assert LazyBreak(s, 19) == Some(23);
    assert LazyBreak(s, 18) == Some(23);
    assert LazyBreak(s, 17) == Some(23);
  }

  /** `<b>Company:</b> Initech<br>` captures `Initech`. */
  lemma InitechCapture()
    ensures LabelCapture(InitechLine) == Some("Initech")
  {
    var s := InitechLine;
    assert s[0..|Label|] == Label && s[16..23] == "Initech";
    InitechSpaces();
    InitechBreak();
    assert FindLabel(s, 0) == Some(Span(0, 16, 23));
  }

  /** With no structured field and no colon in the title, the labelled line
      `<b>Company:</b> Initech<br>` gives `Initech`. */
  lemma InitechExample(item: Item)
    requires item.company.None? && item.creator.None?
    requires item.title == Some("Senior Engineer")
    requires item.content == Some(InitechLine)
    ensures CompanyName(item) == "Initech"
  {
    assert ':' !in "Senior Engineer";
    InitechCapture();
    assert IsTrimmed("Initech", 0, 7);
    TrimSpec("Initech", 0, 7);
    ContentLast(item);
  }
}
