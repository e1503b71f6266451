/** The brace-block scanner for dhcpd.conf and the placement of host reservations. */
module DhcpdBlocks {
  import opened Prelude

  datatype Block = Block(header: string, body: string)

  // ---------------------------------------------------------------- headers

  /** The part after the last semicolon. */
  function LastSegment(s: string): string {
    if s == "" || s[|s| - 1] == ';' then "" else LastSegment(s[..|s| - 1]) + [s[|s| - 1]]
  }

  function Header(prefix: string): string {
    Strip(LastSegment(Strip(prefix)))
  }

  /** `last` is what follows the last semicolon, or the whole text if there is none. */
  ghost predicate IsLast(s: string, last: string) {
    ';' !in last && (s == last || exists before: string :: s == before + ";" + last)
  }

  /** The header is the last statement before the brace, without the white space around it. */
  ghost predicate IsHeader(prefix: string, header: string) {
    exists core, last :: Stripped(prefix, core) && IsLast(core, last) && Stripped(last, header)
  }

  lemma {:induction false} LastSegmentIsLast(s: string)
    ensures IsLast(s, LastSegment(s))
  {
    if s != "" && s[|s| - 1] == ';' {
      assert s == s[..|s| - 1] + ";" + "";
    } else if s != "" {
      var rest, c := s[..|s| - 1], s[|s| - 1];
      LastSegmentIsLast(rest);
      var last := LastSegment(rest);
      if rest == last {
        assert s == last + [c];
      } else {
        var before: string :| rest == before + ";" + last;
        assert s == before + ";" + (last + [c]);
      }
    }
  }

  lemma HeaderIsHeader(prefix: string)
    ensures IsHeader(prefix, Header(prefix))
  {
    var core := Strip(prefix);
    StripStrips(prefix);
    LastSegmentIsLast(core);
    StripStrips(LastSegment(core));
  }

  // ---------------------------------------------------------------- the scanner

  /** The blocks that the scanner yields from position `i` on, with its variables as they are there. */
  function Scan(text: string, i: nat, depth: int, start: nat, head: nat): seq<Block>
    requires i <= |text| && head <= i && start <= i
    decreases |text| - i
  {
    if i == |text| then []
    else if text[i] == '{' then Scan(text, i + 1, depth + 1, if depth == 0 then i else start, head)
    else if text[i] == '}' then
      if depth == 1 then [Yield(text, head, start, i)] + Scan(text, i + 1, 0, start, i + 1)
      else Scan(text, i + 1, depth - 1, start, head)
    else Scan(text, i + 1, depth, start, head)
  }

  /** Python slices: empty when the bounds are the wrong way round. */
  function Slice(text: string, i: nat, j: nat): string {
    if i <= j <= |text| then text[i..j] else ""
  }

  function Yield(text: string, head: nat, start: nat, i: nat): Block {
    Block(Header(Slice(text, head, start)), Slice(text, start + 1, i))
  }

  method Blocks(text: string) returns (blocks: seq<Block>)
    ensures blocks == Scan(text, 0, 0, 0, 0)
    ensures Balanced(text) ==>
              exists pieces, tail :: Proper(pieces, tail) && Render(pieces, tail) == text && blocks == Expected(pieces)
  {
    blocks := [];
    var depth: int, start: nat, head: nat := 0, 0, 0;
    for i := 0 to |text|
      invariant head <= i && start <= i
      invariant blocks + Scan(text, i, depth, start, head) == Scan(text, 0, 0, 0, 0)
    {
      if text[i] == '{' {
        if depth == 0 {
          start := i;
        }
        depth := depth + 1;
      } else if text[i] == '}' {
        depth := depth - 1;
        if depth == 0 {
          blocks := blocks + [Yield(text, head, start, i)];
          head := i + 1;
        }
      }
    }
    if Balanced(text) {
      ghost var pieces, tail := Decompose(text);
      ScanReturnsBlocks(pieces, tail);
    }
  }

  // ---------------------------------------------------------------- texts made of blocks

  function Weight(c: char): int {
    if c == '{' then 1 else if c == '}' then -1 else 0
  }

  /** How much the nesting changes from position i to position j. */
  function Delta(text: string, i: nat, j: nat): int
    requires i <= j <= |text|
    decreases j
  {
    if i == j then 0 else Delta(text, i, j - 1) + Weight(text[j - 1])
  }

  ghost predicate BraceFree(s: string) {
    forall i :: 0 <= i < |s| ==> s[i] != '{' && s[i] != '}'
  }

  ghost predicate Balanced(s: string) {
    (forall n :: 0 <= n <= |s| ==> Delta(s, 0, n) >= 0) && Delta(s, 0, |s|) == 0
  }

  /** One block of the text: what stands before it and what is inside. */
  datatype Piece = Piece(prefix: string, body: string)

  ghost predicate Proper(pieces: seq<Piece>, tail: string) {
    (forall i :: 0 <= i < |pieces| ==> BraceFree(pieces[i].prefix) && Balanced(pieces[i].body)) && BraceFree(tail)
  }

  function Render(pieces: seq<Piece>, tail: string): string
    decreases |pieces|
  {
    if pieces == [] then tail
    else Rendered(pieces[0]) + Render(pieces[1..], tail)
  }

  function Expected(pieces: seq<Piece>): seq<Block> {
    seq(|pieces|, i requires 0 <= i < |pieces| => Block(Header(pieces[i].prefix), pieces[i].body))
  }

  lemma {:induction false} DeltaSplits(text: string, i: nat, j: nat, k: nat)
    requires i <= j <= k <= |text|
    ensures Delta(text, i, k) == Delta(text, i, j) + Delta(text, j, k)
    decreases k
  {
    if j < k {
      DeltaSplits(text, i, j, k - 1);
    }
  }

  lemma {:induction false} DeltaLocal(text: string, s: string, i: nat, n: nat)
    requires n <= |s| && i + |s| <= |text| && text[i..i + |s|] == s
    ensures Delta(text, i, i + n) == Delta(s, 0, n)
  {
    if n > 0 {
      DeltaLocal(text, s, i, n - 1);
      assert text[i + n - 1] == text[i..i + |s|][n - 1];
    }
  }

  /** Inside a block, as long as it is not closed, nothing is yielded. */
  lemma {:induction false} SkipInside(text: string, i: nat, j: nat, depth: int, start: nat, head: nat)
    requires start <= i && head <= i <= j <= |text| && depth >= 1
    requires forall m :: i <= m <= j ==> depth + Delta(text, i, m) >= 1
    ensures Scan(text, i, depth, start, head) == Scan(text, j, depth + Delta(text, i, j), start, head)
    decreases j - i
  {
    if i < j {
      var k, d := i + 1, depth + Weight(text[i]);
      assert Delta(text, i, i) == 0 && Delta(text, i, k) == Weight(text[i]);
      forall m | k <= m <= j
        ensures d + Delta(text, k, m) == depth + Delta(text, i, m) >= 1
      {
        DeltaSplits(text, i, k, m);
      }
      assert Delta(text, k, k) == 0;
      SkipInside(text, k, j, d, start, head);
    }
  }

  /** Outside of blocks, text without braces is passed over. */
  lemma {:induction false} SkipPlain(text: string, i: nat, j: nat, start: nat, head: nat)
    requires start <= i && head <= i <= j <= |text| && BraceFree(text[i..j])
    ensures Scan(text, i, 0, start, head) == Scan(text, j, 0, start, head)
    decreases j - i
  {
    if i < j {
      assert text[i] == text[i..j][0];
      assert text[i + 1..j] == text[i..j][1..];
      SkipPlain(text, i + 1, j, start, head);
    }
  }

  /** Where the braces and the parts of a block are. */
  ghost predicate BlockAt(text: string, at: nat, open: nat, close: nat, p: Piece) {
    && at <= open < close < |text|
    && text[at..open] == p.prefix && text[open] == '{' && text[open + 1..close] == p.body && text[close] == '}'
  }

  lemma BlockParts(text: string, at: nat, p: Piece)
    requires at + |p.prefix| + |p.body| + 2 <= |text|
    requires text[at..at + |p.prefix| + |p.body| + 2] == p.prefix + "{" + p.body + "}"
    ensures BlockAt(text, at, at + |p.prefix|, at + |p.prefix| + 1 + |p.body|, p)
  {
    var n := |p.prefix|;
    var piece := p.prefix + "{" + p.body + "}";
    assert piece[..n] == p.prefix && piece[n] == '{' && piece[n + 1..n + 1 + |p.body|] == p.body
        && piece[n + 1 + |p.body|] == '}';
    var w := text[at..at + n + |p.body| + 2];
    assert text[at..at + n] == w[..n];
    assert text[at + n] == w[n] && text[at + n + 1 + |p.body|] == w[n + 1 + |p.body|];
    assert text[at + n + 1..at + n + 1 + |p.body|] == w[n + 1..n + 1 + |p.body|];
  }

  /** One block in the middle of a text. */
  lemma ScanBlock(text: string, at: nat, open: nat, close: nat, p: Piece, start: nat)
    requires start <= at && BraceFree(p.prefix) && Balanced(p.body) && BlockAt(text, at, open, close, p)
    ensures Scan(text, at, 0, start, at) ==
            [Block(Header(p.prefix), p.body)] + Scan(text, close + 1, 0, open, close + 1)
  {
    SkipPlain(text, at, open, start, at);
    BodySkipped(text, open, close, p.body, at);
  }

  lemma BodySkipped(text: string, open: nat, close: nat, body: string, head: nat)
    requires head <= open < close < |text| && text[open + 1..close] == body && Balanced(body)
    ensures Scan(text, open + 1, 1, open, head) == Scan(text, close, 1, open, head)
  {
    var i := open + 1;
    forall m | i <= m <= close
      ensures 1 + Delta(text, i, m) >= 1
    {
      DeltaLocal(text, body, i, m - i);
    }
    DeltaLocal(text, body, i, |body|);
    SkipInside(text, i, close, 1, open, head);
  }

  function Rendered(p: Piece): string {
    p.prefix + "{" + p.body + "}"
  }

  lemma ScanFirst(pre: string, p: Piece, rest: string, start: nat)
    requires start <= |pre| && BraceFree(p.prefix) && Balanced(p.body)
    ensures var next := pre + Rendered(p);
            Scan(next + rest, |pre|, 0, start, |pre|) ==
            [Block(Header(p.prefix), p.body)] + Scan(next + rest, |next|, 0, |pre| + |p.prefix|, |next|)
  {
    var next := pre + Rendered(p);
    var text := next + rest;
    assert text[|pre|..|next|] == Rendered(p);
    BlockParts(text, |pre|, p);
    ScanBlock(text, |pre|, |pre| + |p.prefix|, |next| - 1, p, start);
  }

  lemma {:induction false} ScanPieces(pre: string, pieces: seq<Piece>, tail: string, start: nat)
    requires Proper(pieces, tail) && start <= |pre|
    ensures Scan(pre + Render(pieces, tail), |pre|, 0, start, |pre|) == Expected(pieces)
    decreases |pieces|
  {
    if pieces == [] {
      assert (pre + tail)[|pre|..|pre + tail|] == tail;
      SkipPlain(pre + tail, |pre|, |pre + tail|, start, |pre|);
    } else {
      var p, rest := pieces[0], Render(pieces[1..], tail);
      ScanFirst(pre, p, rest, start);
      ScanPieces(pre + Rendered(p), pieces[1..], tail, |pre| + |p.prefix|);
      FirstPiece(pre, pieces, tail);
    }
  }

  lemma FirstPiece(pre: string, pieces: seq<Piece>, tail: string)
    requires pieces != []
    ensures pre + Render(pieces, tail) == (pre + Rendered(pieces[0])) + Render(pieces[1..], tail)
    ensures Expected(pieces) == [Block(Header(pieces[0].prefix), pieces[0].body)] + Expected(pieces[1..])
  {
    Associates(pre, Rendered(pieces[0]), Render(pieces[1..], tail));
    FirstExpected(pieces);
  }

  lemma Associates(a: string, b: string, c: string)
    ensures a + (b + c) == (a + b) + c
  {
  }

  lemma FirstExpected(pieces: seq<Piece>)
    requires pieces != []
    ensures Expected(pieces) == [Block(Header(pieces[0].prefix), pieces[0].body)] + Expected(pieces[1..])
  {
  }

  /** The scanner returns exactly the blocks of a text, in order, with header and body. */
  lemma ScanReturnsBlocks(pieces: seq<Piece>, tail: string)
    requires Proper(pieces, tail)
    ensures Scan(Render(pieces, tail), 0, 0, 0, 0) == Expected(pieces)
  {
    assert "" + Render(pieces, tail) == Render(pieces, tail);
    ScanPieces("", pieces, tail, 0);
  }

  // ---------------------------------------------------------------- every balanced text is such a text

  lemma {:induction false} FirstOpen(text: string, i: nat) returns (p: nat)
    requires i <= |text| && BraceFree(text[..i]) && forall n :: 0 <= n <= |text| ==> Delta(text, 0, n) >= 0
    ensures p <= |text| && BraceFree(text[..p]) && (p < |text| ==> text[p] == '{')
    decreases |text| - i
  {
    p := i;
    if i < |text| && text[i] != '{' {
      FlatSoFar(text, i);
      assert Delta(text, 0, i + 1) >= 0;
      assert text[..i + 1] == text[..i] + [text[i]];
      p := FirstOpen(text, i + 1);
    }
  }

  lemma {:induction false} FlatSoFar(text: string, i: nat)
    requires i <= |text| && BraceFree(text[..i])
    ensures Delta(text, 0, i) == 0
  {
    if i > 0 {
      assert text[..i][i - 1] == text[i - 1];
      assert text[..i - 1] == text[..i][..i - 1];
      FlatSoFar(text, i - 1);
    }
  }

  /** The closing brace of the block that is open at position i. */
  lemma {:induction false} FindClose(text: string, p: nat, i: nat) returns (q: nat)
    requires p < i <= |text| && Delta(text, p, |text|) <= 0
    requires forall m :: p < m <= i ==> Delta(text, p, m) >= 1
    ensures i <= q < |text| && text[q] == '}' && Delta(text, p, q) == 1
            && forall m :: p < m <= q ==> Delta(text, p, m) >= 1
    decreases |text| - i
  {
    assert i < |text|;
    assert Delta(text, p, i + 1) == Delta(text, p, i) + Weight(text[i]);
    if Delta(text, p, i + 1) >= 1 {
      q := FindClose(text, p, i + 1);
    } else {
      q := i;
    }
  }

  /** Every balanced text has the form that the scanner's result is stated for. */
  lemma {:induction false} Decompose(text: string) returns (pieces: seq<Piece>, tail: string)
    requires Balanced(text)
    ensures Proper(pieces, tail) && Render(pieces, tail) == text
    decreases |text|
  {
    assert BraceFree(text[..0]);
    var p := FirstOpen(text, 0);
    if p == |text| {
      pieces, tail := [], text;
      assert text[..p] == text;
    } else {
      FlatSoFar(text, p);
      DeltaSplits(text, 0, p, |text|);
      assert Delta(text, p, p) == 0;
      var q := FindClose(text, p, p + 1);
      var body, rest := text[p + 1..q], text[q + 1..];
      BodyBalanced(text, p, q);
      RestBalanced(text, p, q);
      var more, end := Decompose(rest);
      pieces, tail := [Piece(text[..p], body)] + more, end;
      assert pieces[1..] == more;
      assert text == text[..p] + "{" + body + "}" + rest;
    }
  }

  lemma BodyBalanced(text: string, p: nat, q: nat)
    requires p < q < |text| && text[p] == '{' && Delta(text, p, q) == 1
             && forall m :: p < m <= q ==> Delta(text, p, m) >= 1
    ensures Balanced(text[p + 1..q])
  {
    var body := text[p + 1..q];
    assert Delta(text, p, p) == 0 && Delta(text, p, p + 1) == 1;
    forall n | 0 <= n <= |body|
      ensures Delta(body, 0, n) == Delta(text, p, p + 1 + n) - 1
    {
      DeltaLocal(text, body, p + 1, n);
      DeltaSplits(text, p, p + 1, p + 1 + n);
    }
  }

  lemma RestBalanced(text: string, p: nat, q: nat)
    requires Balanced(text) && p < q < |text| && text[q] == '}' && Delta(text, 0, p) == 0 && Delta(text, p, q) == 1
    ensures Balanced(text[q + 1..])
  {
    var k := q + 1;
    var rest := text[k..];
    DeltaSplits(text, 0, p, q);
    assert Delta(text, 0, k) == 0;
    forall n | 0 <= n <= |rest|
      ensures Delta(rest, 0, n) >= 0 && (n == |rest| ==> Delta(rest, 0, n) == 0)
    {
      DeltaLocal(text, rest, k, n);
      DeltaSplits(text, 0, k, k + n);
    }
  }

  // ---------------------------------------------------------------- reservations

  datatype Host = Host(mac: string, ip: nat, hostname: string)

  /** A subnet as the range of its addresses. */
  datatype Subnet = Subnet(first: nat, last: nat)
  {
    predicate Has(h: Host) {
      first <= h.ip <= last
    }
  }

  /** The address lies in the k-th range and in none before it. */
  ghost predicate FitsFirst(h: Host, subnets: seq<Subnet>, k: nat) {
    && k < |subnets| && subnets[k].first <= h.ip <= subnets[k].last
    && forall j :: 0 <= j < k ==> h.ip < subnets[j].first || subnets[j].last < h.ip
  }

  /** The hosts whose first fitting subnet is the k-th, in order. */
  ghost function Reserved(hosts: seq<Host>, subnets: seq<Subnet>, k: nat): seq<Host> {
    if hosts == [] then []
    else
      var n := |hosts| - 1;
      Reserved(hosts[..n], subnets, k) + if FitsFirst(hosts[n], subnets, k) then [hosts[n]] else []
  }

  ghost predicate Fits(h: Host, subnets: seq<Subnet>) {
    exists k :: 0 <= k < |subnets| && subnets[k].first <= h.ip <= subnets[k].last
  }

  /** Each host goes to the first subnet that contains it; the first one that fits nowhere ends the run. */
  method Place(hosts: seq<Host>, subnets: seq<Subnet>) returns (r: Result<seq<seq<Host>>, Host>)
    ensures r.Ok? <==> forall i :: 0 <= i < |hosts| ==> Fits(hosts[i], subnets)
    ensures r.Ok? ==>
              |r.value| == |subnets| && forall k :: 0 <= k < |subnets| ==> r.value[k] == Reserved(hosts, subnets, k)
    ensures r.Err? ==> exists i :: 0 <= i < |hosts| && hosts[i] == r.error && !Fits(hosts[i], subnets)
                                && forall j :: 0 <= j < i ==> Fits(hosts[j], subnets)
  {
    var reservations: seq<seq<Host>> := seq(|subnets|, _ => []);
    for i := 0 to |hosts|
      invariant |reservations| == |subnets|
      invariant forall j :: 0 <= j < i ==> Fits(hosts[j], subnets)
      invariant forall k :: 0 <= k < |subnets| ==> reservations[k] == Reserved(hosts[..i], subnets, k)
    {
      assert hosts[..i + 1][..i] == hosts[..i];
      var k := FindSubnet(hosts[i], subnets);
      if k == |subnets| {
        return Err(hosts[i]);
      }
      reservations := reservations[k := reservations[k] + [hosts[i]]];
    }
    assert hosts[..|hosts|] == hosts;
    return Ok(reservations);
  }

  method FindSubnet(h: Host, subnets: seq<Subnet>) returns (k: nat)
    ensures k <= |subnets| && (k < |subnets| ==> FitsFirst(h, subnets, k))
    ensures k == |subnets| ==> !Fits(h, subnets)
  {
    k := 0;
    while k < |subnets|
      invariant k <= |subnets| && forall j :: 0 <= j < k ==> !subnets[j].Has(h)
    {
      if subnets[k].Has(h) {
        return;
      }
      k := k + 1;
    }
  }

  /** Total number of reservations over the first `n` subnets. */
  ghost function Placed(hosts: seq<Host>, subnets: seq<Subnet>, n: nat): nat {
    if n == 0 then 0 else Placed(hosts, subnets, n - 1) + |Reserved(hosts, subnets, n - 1)|
  }

  /** A subnet holds exactly the hosts for which it is the first that contains them. */
  lemma {:induction false} ReservedIff(hosts: seq<Host>, subnets: seq<Subnet>, k: nat, h: Host)
    ensures h in Reserved(hosts, subnets, k) <==> h in hosts && FitsFirst(h, subnets, k)
  {
    if hosts != [] {
      var n := |hosts| - 1;
      ReservedIff(hosts[..n], subnets, k, h);
      assert hosts == hosts[..n] + [hosts[n]];
    }
  }

  /** No reservation is lost or doubled. */
  lemma {:induction false} EveryHostOnce(hosts: seq<Host>, subnets: seq<Subnet>)
    requires forall i :: 0 <= i < |hosts| ==> Fits(hosts[i], subnets)
    ensures Placed(hosts, subnets, |subnets|) == |hosts|
  {
    if hosts == [] {
      NothingPlaced(subnets, |subnets|);
    } else {
      var n := |hosts| - 1;
      EveryHostOnce(hosts[..n], subnets);
      var k := FirstFit(hosts[n], subnets);
      OneMore(hosts, subnets, k, |subnets|);
    }
  }

  lemma {:induction false} NothingPlaced(subnets: seq<Subnet>, n: nat)
    ensures Placed([], subnets, n) == 0
  {
    if n > 0 {
      NothingPlaced(subnets, n - 1);
    }
  }

  lemma FirstFit(h: Host, subnets: seq<Subnet>) returns (k: nat)
    requires Fits(h, subnets)
    ensures FitsFirst(h, subnets, k)
  {
    k := 0;
    while !subnets[k].Has(h)
      invariant k < |subnets| && forall j :: 0 <= j < k ==> !subnets[j].Has(h)
      decreases |subnets| - k
    {
      k := k + 1;
    }
  }

  lemma {:induction false} OneMore(hosts: seq<Host>, subnets: seq<Subnet>, k: nat, n: nat)
    requires hosts != [] && FitsFirst(hosts[|hosts| - 1], subnets, k) && n <= |subnets|
    ensures Placed(hosts, subnets, n) == Placed(hosts[..|hosts| - 1], subnets, n) + if k < n then 1 else 0
  {
    if n > 0 {
      OneMore(hosts, subnets, k, n - 1);
    }
  }
}
