/**
 * The command handler's request reader: one bounded line at a time, assembled from the fragments a
 * buffered reader hands out, and the read loop that decides what to do with each line.
 */
module BoundedLines {
  import opened Common
  import opened Text

  /** One answer of the buffered reader: data, whether the line goes on, and an error (end of input included). */
  datatype Read = Read(data: string, isPrefix: bool, err: Option<string>)

  predicate EndsLine(r: Read) {
    !r.isPrefix || r.err.Some?
  }

  function Content(frags: seq<Read>): string {
    if frags == [] then "" else Content(frags[..|frags| - 1]) + frags[|frags| - 1].data
  }

  /** The leading fragments that together stay within the limit. */
  function Kept(frags: seq<Read>, limit: nat): (r: string)
    ensures |r| <= limit
  {
    if frags == [] then ""
    else if |Content(frags)| <= limit then Content(frags)
    else Kept(frags[..|frags| - 1], limit)
  }

  ghost predicate HasLine(frags: seq<Read>) {
    exists r :: r in frags && EndsLine(r)
  }

  /** How many fragments make up the next line. */
  ghost function LineLength(frags: seq<Read>): (n: nat)
    requires HasLine(frags)
    ensures 0 < n <= |frags| && EndsLine(frags[n - 1])
    ensures forall i :: 0 <= i < n - 1 ==> !EndsLine(frags[i])
  {
    if EndsLine(frags[0]) then 1
    else
      assert HasLine(frags[1..]) by {
        var r :| r in frags && EndsLine(r);
        assert r in frags[1..];
      }
      1 + LineLength(frags[1..])
  }

  // ---------------------------------------------------------------- one line

  lemma {:induction false} KeptIsPrefix(frags: seq<Read>, limit: nat)
    ensures Kept(frags, limit) <= Content(frags)
    ensures |Content(frags)| <= limit ==> Kept(frags, limit) == Content(frags)
  {
    if frags != [] {
      KeptIsPrefix(frags[..|frags| - 1], limit);
    }
  }

  /** With fragments of at most width bytes, an oversized line is cut off less than width below the limit. */
  lemma {:induction false} KeptIsLong(frags: seq<Read>, limit: nat, width: nat)
    requires forall r :: r in frags ==> |r.data| <= width
    requires |Content(frags)| > limit
    ensures |Kept(frags, limit)| + width > limit
  {
    var init := frags[..|frags| - 1];
    assert frags[|frags| - 1] in frags;
    if |Content(init)| > limit {
      KeptIsLong(init, limit, width);
    } else {
      KeptIsPrefix(init, limit);
    }
  }

  lemma {:induction false} KeepOneMore(seen: seq<Read>, read: Read, limit: nat)
    ensures var next, data := seen + [read], read.data;
            var over, fits := |Content(seen)| > limit, |Kept(seen, limit)| + |data| <= limit;
            && (|Content(next)| > limit <==> over || !fits)
            && Kept(next, limit) == if !over && fits then Kept(seen, limit) + data else Kept(seen, limit)
  {
    assert (seen + [read])[..|seen|] == seen;
    KeptIsPrefix(seen, limit);
  }

  lemma {:induction false} StopsAtLine(all: seq<Read>, seen: seq<Read>, left: seq<Read>)
    requires HasLine(all) && all == seen + left && |seen| < LineLength(all)
    ensures left != []
    ensures var n, next := LineLength(all), seen + [left[0]];
            && all == next + left[1..]
            && (if EndsLine(left[0]) then next == all[..n] && left[1..] == all[n..] && left[0] == all[n - 1]
                else |next| < n)
  {
    assert left[0] == all[|seen|];
  }

  class LineReader {
    var incoming: seq<Read>

    method ReadLine() returns (r: Read)
      requires incoming != []
      modifies this
      ensures r == old(incoming)[0] && incoming == old(incoming)[1..]
    {
      r := incoming[0];
      incoming := incoming[1..];
    }
  }

  /** Exactly one line is consumed, whatever its length; it is accepted iff it fits, and then it is
      complete. A line torn by an error in mid-line yields nothing. */
  method ReadBoundedLine(reader: LineReader, maxBytes: nat) returns (line: string, ok: bool, err: Option<string>)
    requires HasLine(reader.incoming)
    modifies reader
    ensures var n := LineLength(old(reader.incoming));
            var mine := old(reader.incoming)[..n];
            && reader.incoming == old(reader.incoming)[n..]
            && err == mine[n - 1].err
            && (ok <==> !mine[n - 1].isPrefix && |Content(mine)| <= maxBytes)
            && (ok ==> line == Content(mine))
            && (mine[n - 1].isPrefix ==> line == "")
            && (!mine[n - 1].isPrefix ==> line == Kept(mine, maxBytes))
  {
    ghost var all, seen := reader.incoming, [];
    var buf, oversized := "", false;
    while true
      invariant all == seen + reader.incoming && |seen| < LineLength(all)
      invariant buf == Kept(seen, maxBytes)
      invariant oversized <==> |Content(seen)| > maxBytes
      decreases |reader.incoming|
    {
      StopsAtLine(all, seen, reader.incoming);
      var read := reader.ReadLine();
      KeepOneMore(seen, read, maxBytes);
      seen := seen + [read];
      if !oversized {
        if |buf| + |read.data| <= maxBytes {
          buf := buf + read.data;
        } else {
          oversized := true;
        }
      }
      if !read.isPrefix {
        KeptIsPrefix(seen, maxBytes);
        return buf, !oversized, read.err;
      }
      if read.err.Some? {
        return "", false, read.err;
      }
    }
  }

  // ---------------------------------------------------------------- the request id of an oversized line

  function Index(s: string, p: string): (r: Option<nat>)
    ensures r.Some? ==> r.value <= |s| && StartsWith(s[r.value..], p)
  {
    if StartsWith(s, p) then
      assert s[0..] == s;
      Some(0)
    else if s == "" then None
    else
      var rest := Index(s[1..], p);
      if rest.None? then None
      else
        assert s[rest.value + 1..] == s[1..][rest.value..];
        Some(rest.value + 1)
  }

  lemma {:induction false} IndexIsFirst(s: string, p: string, k: nat)
    requires k <= |s| && (Index(s, p).Some? ==> k < Index(s, p).value)
    ensures !StartsWith(s[k..], p)
  {
    if k == 0 {
      assert s[0..] == s;
    } else {
      assert s[k..] == s[1..][k - 1..];
      IndexIsFirst(s[1..], p, k - 1);
    }
  }

  function TrimLeft(s: string, cut: set<char>): (r: string)
    ensures r != "" ==> r[0] !in cut
    ensures |r| <= |s| && s[|s| - |r|..] == r && forall c :: c in s[..|s| - |r|] ==> c in cut
  {
    if s == "" || s[0] !in cut then s
    else
      var r := TrimLeft(s[1..], cut);
      assert s[..|s| - |r|] == [s[0]] + s[1..][..|s| - 1 - |r|];
      r
  }

  /** The text between the first pair of quotes after the first occurrence of key and a run of separators. */
  function QuotedAfter(line: string, key: string, separators: set<char>, quote: char): Option<string> {
    var at := Index(line, key);
    if at.None? then None
    else Quoted(TrimLeft(line[at.value..][|key|..], separators), quote)
  }

  function Quoted(rest: string, quote: char): Option<string> {
    if rest == "" || rest[0] != quote then None
    else
      var end := Index(rest[1..], [quote]);
      if end.None? then None else Some(rest[1..][..end.value])
  }

  /** line is before, the first occurrence of key, separators only, a quoted id, and anything. */
  ghost predicate Carries(line: string, key: string, separators: set<char>, quote: char,
                          before: string, gap: string, id: string, after: string)
  {
    && line == before + (key + (gap + QuotedText(id, quote, after)))
    && (forall k :: 0 <= k < |before| ==> !StartsWith(line[k..], key))
    && (forall c :: c in gap ==> c in separators)
    && quote !in id
  }

  ghost function QuotedText(id: string, quote: char, after: string): string {
    [quote] + (id + ([quote] + after))
  }

  lemma {:induction false} IndexAt(s: string, p: string, at: nat)
    requires at <= |s| && StartsWith(s[at..], p)
    requires forall k :: 0 <= k < at ==> !StartsWith(s[k..], p)
    ensures Index(s, p) == Some(at)
  {
    var r := Index(s, p);
    if r.None? || at < r.value {
      IndexIsFirst(s, p, at);
    }
  }

  lemma {:induction false} TrimGap(gap: string, rest: string, cut: set<char>)
    requires forall c :: c in gap ==> c in cut
    requires rest != "" && rest[0] !in cut
    ensures TrimLeft(gap + rest, cut) == rest
  {
    if gap == "" {
      assert gap + rest == rest;
    } else {
      assert (gap + rest)[0] == gap[0] && (gap + rest)[1..] == gap[1..] + rest;
      TrimGap(gap[1..], rest, cut);
    }
  }

  lemma {:induction false} QuotedFinds(id: string, quote: char, after: string)
    requires quote !in id
    ensures Quoted(QuotedText(id, quote, after), quote) == Some(id)
  {
    var s := id + ([quote] + after);
    assert QuotedText(id, quote, after)[1..] == s;
    forall k | 0 <= k < |id| ensures !StartsWith(s[k..], [quote]) {
      assert s[k] == id[k] && id[k] in id;
      assert s[k..][..1] == [id[k]];
    }
    assert s[|id|..] == [quote] + after;
    assert ([quote] + after)[..1] == [quote];
    IndexAt(s, [quote], |id|);
    assert s[..|id|] == id;
  }

  lemma {:induction false} QuotedShows(rest: string, quote: char) returns (after: string)
    requires Quoted(rest, quote).Some?
    ensures var id := Quoted(rest, quote).value; quote !in id && rest == QuotedText(id, quote, after)
  {
    var s := rest[1..];
    var end := Index(s, [quote]).value;
    var id, tail := s[..end], s[end..];
    assert tail[..1] == [quote];
    after := tail[1..];
    assert tail == tail[..1] + after;
    assert s == id + tail;
    assert rest == [rest[0]] + s;
    forall k | 0 <= k < |id| ensures id[k] != quote {
      IndexIsFirst(s, [quote], k);
      assert s[k..][..1] == [s[k]];
    }
  }

  lemma {:induction false} QuotedAfterFinds(line: string, key: string, separators: set<char>, quote: char,
                                            before: string, gap: string, id: string, after: string)
    requires quote !in separators
    requires Carries(line, key, separators, quote, before, gap, id, after)
    ensures QuotedAfter(line, key, separators, quote) == Some(id)
  {
    var text := QuotedText(id, quote, after);
    assert line[|before|..] == key + (gap + text);
    assert (key + (gap + text))[..|key|] == key;
    IndexAt(line, key, |before|);
    assert line[|before|..][|key|..] == gap + text;
    TrimGap(gap, text, separators);
    QuotedFinds(id, quote, after);
  }

  lemma {:induction false} TrimShows(s: string, cut: set<char>) returns (gap: string)
    ensures s == gap + TrimLeft(s, cut) && forall c :: c in gap ==> c in cut
  {
    var rest := TrimLeft(s, cut);
    gap := s[..|s| - |rest|];
    assert s == gap + s[|s| - |rest|..];
  }

  lemma {:induction false} IndexShows(s: string, p: string) returns (before: string)
    requires Index(s, p).Some?
    ensures s == before + (p + s[Index(s, p).value..][|p|..])
    ensures forall k :: 0 <= k < |before| ==> !StartsWith(s[k..], p)
  {
    var at := Index(s, p).value;
    before := s[..at];
    forall k | 0 <= k < |before| ensures !StartsWith(s[k..], p) {
      IndexIsFirst(s, p, k);
    }
    assert s[at..] == s[at..][..|p|] + s[at..][|p|..];
    assert s == before + s[at..];
  }

  lemma {:induction false} QuotedAfterShows(line: string, key: string, separators: set<char>, quote: char)
    returns (before: string, gap: string, after: string)
    requires QuotedAfter(line, key, separators, quote).Some?
    ensures Carries(line, key, separators, quote, before, gap, QuotedAfter(line, key, separators, quote).value, after)
  {
    before := IndexShows(line, key);
    var tail := line[Index(line, key).value..][|key|..];
    gap := TrimShows(tail, separators);
    after := QuotedShows(TrimLeft(tail, separators), quote);
  }

  /** The scan for the id of an oversized request succeeds exactly on lines of that shape. */
  lemma {:induction false} QuotedAfterExactly(line: string, key: string, separators: set<char>, quote: char, id: string)
    requires quote !in separators
    ensures QuotedAfter(line, key, separators, quote) == Some(id)
      <==> exists before, gap, after :: Carries(line, key, separators, quote, before, gap, id, after)
  {
    if QuotedAfter(line, key, separators, quote) == Some(id) {
      var before, gap, after := QuotedAfterShows(line, key, separators, quote);
    }
    if before, gap, after :| Carries(line, key, separators, quote, before, gap, id, after) {
      QuotedAfterFinds(line, key, separators, quote, before, gap, id, after);
    }
  }

  const KEY := "\"req_id\""

  const SEPARATORS := {' ', '\t', '\r', '\n', ':'}

  /** The id of a request whose line was cut off, scanned from the raw bytes. */
  function PartialId(line: string): Option<string> {
    QuotedAfter(line, KEY, SEPARATORS, '"')
  }

  // ---------------------------------------------------------------- the read loop

  /** What the loop does with one line: start a worker, refuse under an id, or drop it. */
  datatype Item = Accept(id: string) | Refuse(id: string) | Skip

  datatype Parsed = Malformed | Request(id: string)

  const SPACE := {' ', '\t', '\r', '\n', '\U{0B}', '\U{0C}'}

  function TrimRight(s: string, cut: set<char>): string {
    if s == "" || s[|s| - 1] !in cut then s else TrimRight(s[..|s| - 1], cut)
  }

  function TrimSpace(s: string): string {
    TrimRight(TrimLeft(s, SPACE), SPACE)
  }

  function ItemOf(decode: string -> Parsed, line: string, ok: bool): Item {
    if !ok then
      match PartialId(line)
      case None => Skip
      case Some(id) => Refuse(id)
    else
      var text := TrimSpace(line);
      if text == "" then Skip
      else
        match decode(text)
        case Malformed => Skip
        case Request(id) => if id == "" then Skip else Accept(id)
  }

  // ---------------------------------------------------------------- what a line asks for

  predicate White(c: char) {
    c in {' ', '\t', '\r', '\n', '\U{0B}', '\U{0C}'}
  }

  ghost predicate Blank(s: string) {
    forall c :: c in s ==> White(c)
  }

  ghost predicate Trimmed(t: string) {
    t != "" && !White(t[0]) && !White(t[|t| - 1])
  }

  /** The line is a request: it fits, and without the white space around it, it decodes with an id. */
  ghost predicate Asks(decode: string -> Parsed, line: string, limit: nat, id: string) {
    && |line| <= limit && id != ""
    && exists a, t, b :: IsAround(line, a, t, b) && decode(t) == Request(id)
  }

  ghost predicate IsAround(line: string, a: string, t: string, b: string) {
    line == a + (t + b) && Blank(a) && Trimmed(t) && Blank(b)
  }

  lemma {:induction false} TrimRightGap(rest: string, gap: string)
    requires Blank(gap) && Trimmed(rest)
    ensures TrimRight(rest + gap, SPACE) == rest
  {
    if gap == "" {
      assert rest + gap == rest;
    } else {
      var s, front := rest + gap, gap[..|gap| - 1];
      assert s[|s| - 1] == gap[|gap| - 1] && gap[|gap| - 1] in gap;
      assert s[..|s| - 1] == rest + front;
      assert Blank(front) by {
        assert forall c :: c in front ==> c in gap;
      }
      TrimRightGap(rest, front);
    }
  }

  lemma {:induction false} TrimRightShows(s: string) returns (gap: string)
    ensures s == TrimRight(s, SPACE) + gap && Blank(gap)
    ensures var r := TrimRight(s, SPACE); r != "" ==> r[0] == s[0] && !White(r[|r| - 1])
  {
    if s == "" || s[|s| - 1] !in SPACE {
      gap := "";
    } else {
      var front := s[..|s| - 1];
      var rest := TrimRightShows(front);
      gap := rest + [s[|s| - 1]];
      BlankGrows(front, TrimRight(front, SPACE), rest, s[|s| - 1], s);
    }
  }

  lemma {:induction false} BlankGrows(front: string, text: string, gap: string, c: char, s: string)
    requires s == front + [c] && front == text + gap && Blank(gap) && White(c)
    ensures s == text + (gap + [c]) && Blank(gap + [c])
  {}

  /** Trimming finds the text between the white space, if there is any. */
  lemma {:induction false} TrimFinds(line: string, a: string, t: string, b: string)
    requires IsAround(line, a, t, b)
    ensures TrimSpace(line) == t
  {
    assert (t + b)[0] == t[0];
    TrimGap(a, t + b, SPACE);
    TrimRightGap(t, b);
  }

  lemma {:induction false} TrimSplits(line: string) returns (a: string, t: string, b: string)
    ensures t == TrimSpace(line) && (t != "" ==> IsAround(line, a, t, b))
  {
    var rest := TrimLeft(line, SPACE);
    a := TrimShows(line, SPACE);
    BlankBySpace(a);
    b := TrimRightShows(rest);
    t := TrimRight(rest, SPACE);
    AroundInside(line, a, rest, t, b);
  }

  lemma {:induction false} AroundInside(line: string, a: string, rest: string, t: string, b: string)
    requires line == a + rest && rest == t + b && Blank(a) && Blank(b)
    requires rest != "" ==> !White(rest[0])
    requires t != "" ==> !White(t[|t| - 1])
    ensures t != "" ==> IsAround(line, a, t, b)
  {}

  lemma {:induction false} BlankBySpace(a: string)
    requires forall c :: c in a ==> c in SPACE
    ensures Blank(a)
  {}

  lemma {:induction false} AskedTextIsTrimmed(decode: string -> Parsed, line: string, limit: nat, id: string)
    ensures Asks(decode, line, limit, id) <==>
            |line| <= limit && id != "" && TrimSpace(line) != "" && decode(TrimSpace(line)) == Request(id)
  {
    if a, t, b :| IsAround(line, a, t, b) && decode(t) == Request(id) {
      TrimFinds(line, a, t, b);
    }
    var a, t, b := TrimSplits(line);
  }

  /** What a line asks for is one thing. */
  ghost function AskedId(decode: string -> Parsed, line: string, limit: nat): (r: Option<string>)
    ensures forall id :: Asks(decode, line, limit, id) <==> r == Some(id)
  {
    assert forall id :: Asks(decode, line, limit, id) <==>
        |line| <= limit && id != "" && TrimSpace(line) != "" && decode(TrimSpace(line)) == Request(id) by {
      forall id { AskedTextIsTrimmed(decode, line, limit, id); }
    }
    if id :| Asks(decode, line, limit, id) then Some(id) else None
  }

  /** Every line is judged by its bytes alone. A whole line starts a worker exactly when it is a request; it is
      refused exactly when it does not fit and what was kept of it shows an id; a torn line does nothing. */
  lemma {:induction false} LineIsJudgedExactly(decode: string -> Parsed, mine: seq<Read>, limit: nat, id: string)
    requires mine != []
    ensures var item, whole := LineItem(decode, mine, limit), !mine[|mine| - 1].isPrefix;
            && (item == Accept(id) <==> whole && Asks(decode, Content(mine), limit, id))
            && (item == Refuse(id) <==> whole && |Content(mine)| > limit && ShowsId(Kept(mine, limit), id))
  {
    KeptIsPrefix(mine, limit);
    AskedTextIsTrimmed(decode, Content(mine), limit, id);
    ShownIdIsFound(Kept(mine, limit), id);
    NothingInEmptyLine();
  }

  /** A quoted id after the first "req_id" and a run of separators. */
  ghost predicate ShowsId(line: string, id: string) {
    exists before, gap, after ::
      Carries(line, "\"req_id\"", {' ', '\t', '\r', '\n', ':'}, '"', before, gap, id, after)
  }

  lemma {:induction false} ShownIdIsFound(line: string, id: string)
    ensures PartialId(line) == Some(id) <==> ShowsId(line, id)
  {
    QuotedAfterExactly(line, KEY, SEPARATORS, '"', id);
  }

  lemma {:induction false} NothingInEmptyLine()
    ensures PartialId("") == None
  {}

  /** The input ends or fails at some point; nothing before that carries an error. */
  ghost predicate Closes(frags: seq<Read>) {
    frags != [] && frags[|frags| - 1].err.Some? && forall i :: 0 <= i < |frags| - 1 ==> frags[i].err.None?
  }

  lemma {:induction false} NextLine(frags: seq<Read>)
    requires Closes(frags)
    ensures HasLine(frags)
    ensures var n := LineLength(frags);
            && (frags[n - 1].err.Some? <==> n == |frags|)
            && (n < |frags| ==> Closes(frags[n..]) && !frags[n - 1].isPrefix)
  {
    assert frags[|frags| - 1] in frags;
  }

  /** The input cut into lines; the last one ends with the error. */
  ghost function Lines(frags: seq<Read>): (r: seq<seq<Read>>)
    requires Closes(frags)
    ensures r != []
  {
    NextLine(frags);
    var n := LineLength(frags);
    if n == |frags| then [frags]
    else [frags[..n]] + Lines(frags[n..])
  }

  ghost function LineItem(decode: string -> Parsed, mine: seq<Read>, limit: nat): Item {
    var torn := mine != [] && mine[|mine| - 1].isPrefix;
    ItemOf(decode, if torn then "" else Kept(mine, limit), !torn && |Content(mine)| <= limit)
  }

  ghost function Items(decode: string -> Parsed, lines: seq<seq<Read>>, limit: nat): (r: seq<Item>)
    ensures |r| == |lines|
  {
    if lines == [] then [] else [LineItem(decode, lines[0], limit)] + Items(decode, lines[1..], limit)
  }

  lemma {:induction false} ItemsSnoc(decode: string -> Parsed, a: seq<seq<Read>>, line: seq<Read>,
                                     w: seq<seq<Read>>, limit: nat)
    requires w == a + [line]
    ensures Items(decode, w, limit) == Items(decode, a, limit) + [LineItem(decode, line, limit)]
  {
    if a == [] {
      assert w == [line] && w[1..] == [];
    } else {
      assert w[0] == a[0] && w[1..] == a[1..] + [line];
      ItemsSnoc(decode, a[1..], line, w[1..], limit);
    }
  }

  lemma {:induction false} LineJudged(decode: string -> Parsed, mine: seq<Read>, limit: nat, line: string, ok: bool)
    requires mine != []
    requires var torn := mine[|mine| - 1].isPrefix;
             && (ok <==> !torn && |Content(mine)| <= limit)
             && line == if torn then "" else Kept(mine, limit)
    ensures ItemOf(decode, line, ok) == LineItem(decode, mine, limit)
  {}

  lemma {:induction false} FirstOfLines(frags: seq<Read>)
    requires Closes(frags)
    ensures HasLine(frags)
    ensures var n, lines := LineLength(frags), Lines(frags);
            && lines[0] == frags[..n]
            && (frags[n - 1].err.Some? ==> lines[1..] == [])
            && (frags[n - 1].err.None? ==> Closes(frags[n..]) && lines[1..] == Lines(frags[n..]))
  {
    NextLine(frags);
    assert frags[..|frags|] == frags;
  }

  method TakeItem(reader: LineReader, decode: string -> Parsed, limit: nat) returns (item: Item, err: Option<string>)
    requires Closes(reader.incoming)
    modifies reader
    ensures item == LineItem(decode, Lines(old(reader.incoming))[0], limit)
    ensures err.Some? ==> Lines(old(reader.incoming))[1..] == []
    ensures err.None? ==> Closes(reader.incoming) && Lines(reader.incoming) == Lines(old(reader.incoming))[1..]
    ensures |reader.incoming| < |old(reader.incoming)|
  {
    FirstOfLines(reader.incoming);
    ghost var mine := Lines(reader.incoming)[0];
    var line, ok;
    line, ok, err := ReadBoundedLine(reader, limit);
    LineJudged(decode, mine, limit, line, ok);
    item := ItemOf(decode, line, ok);
  }

  lemma {:induction false} TakeNext(decode: string -> Parsed, taken: seq<seq<Read>>, left: seq<seq<Read>>, limit: nat)
    requires left != []
    ensures taken + left == taken + [left[0]] + left[1..]
    ensures Items(decode, taken + [left[0]], limit) == Items(decode, taken, limit) + [LineItem(decode, left[0], limit)]
  {
    HeadMoves(taken, left);
    ItemsSnoc(decode, taken, left[0], taken + [left[0]], limit);
  }

  lemma {:induction false} HeadMoves<T>(a: seq<T>, b: seq<T>)
    requires b != []
    ensures a + b == a + [b[0]] + b[1..]
  {
    assert b == [b[0]] + b[1..];
  }

  /** The loop judges each line in turn until the input ends, or the context is seen cancelled before
      line stopAt. */
  method ReadLoop(reader: LineReader, decode: string -> Parsed, limit: nat, stopAt: nat)
    returns (items: seq<Item>, ghost taken: seq<seq<Read>>, ghost left: seq<seq<Read>>)
    requires Closes(reader.incoming)
    modifies reader
    ensures Lines(old(reader.incoming)) == taken + left
    ensures items == Items(decode, taken, limit)
    ensures |items| <= stopAt && (left == [] || |items| == stopAt)
  {
    items, taken, left := [], [], Lines(reader.incoming);
    var open := true;
    while open && |items| != stopAt
      invariant Lines(old(reader.incoming)) == taken + left
      invariant items == Items(decode, taken, limit)
      invariant |items| <= stopAt
      invariant if open then Closes(reader.incoming) && left == Lines(reader.incoming) else left == []
      decreases open, |reader.incoming|
    {
      TakeNext(decode, taken, left, limit);
      var item, err := TakeItem(reader, decode, limit);
      items := items + [item];
      taken, left := taken + [left[0]], left[1..];
      open := err.None?;
    }
  }

  // ---------------------------------------------------------------- fragmentation does not matter

  function Concat(pieces: seq<string>): string {
    if pieces == [] then "" else Concat(pieces[..|pieces| - 1]) + pieces[|pieces| - 1]
  }

  function Going(pieces: seq<string>): seq<Read> {
    seq(|pieces|, i requires 0 <= i < |pieces| => Read(pieces[i], true, None))
  }

  ghost predicate Nonempty(cuts: seq<seq<string>>) {
    forall i :: 0 <= i < |cuts| ==> cuts[i] != []
  }

  /** A line delivered in the given pieces. */
  function Cut(pieces: seq<string>): seq<Read>
    requires pieces != []
  {
    Going(pieces[..|pieces| - 1]) + [Read(pieces[|pieces| - 1], false, None)]
  }

  /** Terminated lines, then what is left before the input ends. */
  ghost function Script(cuts: seq<seq<string>>, last: seq<string>, end: string): seq<Read>
    requires Nonempty(cuts)
  {
    if cuts == [] then Going(last) + [Read("", false, Some(end))]
    else Cut(cuts[0]) + Script(cuts[1..], last, end)
  }

  lemma {:induction false} ContentOfGoing(pieces: seq<string>)
    ensures Content(Going(pieces)) == Concat(pieces)
  {
    if pieces != [] {
      ContentOfGoing(pieces[..|pieces| - 1]);
      assert Going(pieces)[..|pieces| - 1] == Going(pieces[..|pieces| - 1]);
    }
  }

  lemma {:induction false} ContentOfCut(pieces: seq<string>)
    requires pieces != []
    ensures Content(Cut(pieces)) == Concat(pieces)
  {
    ContentOfGoing(pieces[..|pieces| - 1]);
    assert Cut(pieces)[..|pieces| - 1] == Going(pieces[..|pieces| - 1]);
  }

  lemma {:induction false} LineLengthIs(frags: seq<Read>, n: nat)
    requires 0 < n <= |frags| && EndsLine(frags[n - 1])
    requires forall i :: 0 <= i < n - 1 ==> !EndsLine(frags[i])
    ensures HasLine(frags) && LineLength(frags) == n
  {
    assert frags[n - 1] in frags;
  }

  ghost function Contents(lines: seq<seq<Read>>): seq<string> {
    if lines == [] then [] else [Content(lines[0])] + Contents(lines[1..])
  }

  ghost predicate Whole(lines: seq<seq<Read>>) {
    forall l: seq<Read> :: l in lines ==> l != [] && !l[|l| - 1].isPrefix
  }

  ghost function Texts(cuts: seq<seq<string>>): seq<string> {
    if cuts == [] then [] else [Concat(cuts[0])] + Texts(cuts[1..])
  }

  lemma {:induction false} ContentsStep(line: seq<Read>, rest: seq<seq<Read>>)
    ensures Contents([line] + rest) == [Content(line)] + Contents(rest)
  {
    assert ([line] + rest)[1..] == rest;
  }

  lemma {:induction false} LastLine(last: seq<string>, end: string)
    ensures var frags := Going(last) + [Read("", false, Some(end))];
            Closes(frags) && Lines(frags) == [frags] && Content(frags) == Concat(last)
  {
    var frags := Going(last) + [Read("", false, Some(end))];
    LineLengthIs(frags, |frags|);
    ContentOfGoing(last);
    assert frags[..|last|] == Going(last);
    assert Concat(last) + "" == Concat(last);
  }

  lemma {:induction false} CutIsFirstLine(pieces: seq<string>, rest: seq<Read>)
    requires pieces != [] && Closes(rest) && Closes(Cut(pieces) + rest)
    ensures Lines(Cut(pieces) + rest) == [Cut(pieces)] + Lines(rest)
  {
    var head := Cut(pieces);
    var frags := head + rest;
    LineLengthIs(frags, |head|);
    assert frags[..|head|] == head && frags[|head|..] == rest;
  }

  lemma {:induction false} FirstLineRead(head: seq<Read>, rest: seq<seq<Read>>, lines: seq<seq<Read>>)
    requires lines == [head] + rest && head != [] && !head[|head| - 1].isPrefix && Whole(rest)
    ensures Whole(lines) && Contents(lines) == [Content(head)] + Contents(rest)
  {
    ContentsStep(head, rest);
  }

  lemma {:induction false} CutIsRead(pieces: seq<string>, rest: seq<Read>, frags: seq<Read>)
    requires pieces != [] && Closes(rest) && frags == Cut(pieces) + rest && Whole(Lines(rest))
    ensures Closes(frags) && Whole(Lines(frags)) && Contents(Lines(frags)) == [Concat(pieces)] + Contents(Lines(rest))
  {
    CutIsFirstLine(pieces, rest);
    ContentOfCut(pieces);
    FirstLineRead(Cut(pieces), Lines(rest), Lines(frags));
  }

  /** However each line is cut, the lines read back are the lines sent. */
  lemma {:induction false} LinesSurviveCutting(cuts: seq<seq<string>>, last: seq<string>, end: string)
    requires Nonempty(cuts)
    ensures var frags := Script(cuts, last, end);
            Closes(frags) && Whole(Lines(frags)) && Contents(Lines(frags)) == Texts(cuts) + [Concat(last)]
  {
    if cuts == [] {
      LastIsRead(last, end);
    } else {
      LinesSurviveCutting(cuts[1..], last, end);
      CutIsRead(cuts[0], Script(cuts[1..], last, end), Script(cuts, last, end));
      var first, texts, tail := [Concat(cuts[0])], Texts(cuts[1..]), [Concat(last)];
      assert first + (texts + tail) == (first + texts) + tail;
    }
  }

  lemma {:induction false} LastIsRead(last: seq<string>, end: string)
    ensures var frags := Script([], last, end);
            Closes(frags) && Whole(Lines(frags)) && Contents(Lines(frags)) == [Concat(last)]
  {
    LastLine(last, end);
    ContentsStep(Script([], last, end), []);
    assert Lines(Script([], last, end)) == [Script([], last, end)] + [];
  }

  function Accepted(items: seq<Item>): seq<string> {
    if items == [] then [] else (if items[0].Accept? then [items[0].id] else []) + Accepted(items[1..])
  }

  /** The requests among whole lines: the well-formed ones that fit, in order. */
  ghost function Requests(decode: string -> Parsed, texts: seq<string>, limit: nat): seq<string> {
    if texts == [] then []
    else
      (match AskedId(decode, texts[0], limit) case Some(id) => [id] case None => [])
      + Requests(decode, texts[1..], limit)
  }

  lemma {:induction false} AcceptedStep(item: Item, rest: seq<Item>)
    ensures Accepted([item] + rest) == Accepted([item]) + Accepted(rest)
  {
    assert ([item] + rest)[1..] == rest;
  }

  lemma {:induction false} RequestsStep(decode: string -> Parsed, texts: seq<string>, limit: nat)
    requires texts != []
    ensures Requests(decode, texts, limit) == Requests(decode, [texts[0]], limit) + Requests(decode, texts[1..], limit)
  {}

  lemma {:induction false} WholeLineAccepted(decode: string -> Parsed, line: seq<Read>, limit: nat)
    requires line != [] && !line[|line| - 1].isPrefix
    ensures Accepted([LineItem(decode, line, limit)]) == Requests(decode, [Content(line)], limit)
  {
    var item := LineItem(decode, line, limit);
    match AskedId(decode, Content(line), limit)
    case Some(id) => LineIsJudgedExactly(decode, line, limit, id);
    case None => if item.Accept? { LineIsJudgedExactly(decode, line, limit, item.id); }
  }

  lemma {:induction false} AcceptedAreRequests(decode: string -> Parsed, lines: seq<seq<Read>>, limit: nat)
    requires Whole(lines)
    ensures Accepted(Items(decode, lines, limit)) == Requests(decode, Contents(lines), limit)
  {
    if lines != [] {
      var l := lines[0];
      assert l in lines;
      AcceptedAreRequests(decode, lines[1..], limit);
      WholeLineAccepted(decode, l, limit);
      AcceptedStep(LineItem(decode, l, limit), Items(decode, lines[1..], limit));
      RequestsStep(decode, Contents(lines), limit);
    }
  }

  /** Whatever the fragmentation, the requests accepted are those of the lines that fit: an oversized
      line is dropped and changes nothing else. */
  lemma {:induction false} FragmentationIsInvisible(decode: string -> Parsed, cuts: seq<seq<string>>, last: seq<string>,
                                                    end: string, limit: nat)
    requires Nonempty(cuts)
    ensures Closes(Script(cuts, last, end))
    ensures Accepted(Items(decode, Lines(Script(cuts, last, end)), limit))
         == Requests(decode, Texts(cuts) + [Concat(last)], limit)
  {
    LinesSurviveCutting(cuts, last, end);
    AcceptedAreRequests(decode, Lines(Script(cuts, last, end)), limit);
  }

  /** Rereading part of a line does not move the first occurrence of the key. */
  lemma {:induction false} CarriesInPrefix(line: string, kept: string, key: string, separators: set<char>, quote: char,
                                           before: string, gap: string, id: string, after: string)
    returns (short: string)
    requires kept <= line && Carries(line, key, separators, quote, before, gap, id, after)
    requires |before| + |key| + |gap| + |id| + 2 <= |kept|
    ensures Carries(kept, key, separators, quote, before, gap, id, short)
  {
    var cut := |before| + |key| + |gap| + |id| + 2;
    short := kept[cut..];
    var head := before + (key + (gap + ([quote] + (id + [quote]))));
    assert line == head + after;
    assert kept == head + short;
    assert kept == before + (key + (gap + QuotedText(id, quote, short)));
    forall k | 0 <= k < |before| ensures !StartsWith(kept[k..], key) {
      assert !StartsWith(line[k..], key);
      if |key| <= |kept[k..]| {
        assert kept[k..][..|key|] == line[k..][..|key|];
      }
    }
  }

  /** An oversized request is refused under its own id, however fragmented, when the id ends at least one
      fragment's width below the limit. */
  lemma {:induction false} OversizedIsRefusedByName(decode: string -> Parsed, mine: seq<Read>, limit: nat, width: nat,
                                                    before: string, gap: string, id: string, after: string)
    requires mine != [] && !mine[|mine| - 1].isPrefix
    requires forall r :: r in mine ==> |r.data| <= width
    requires |Content(mine)| > limit
    requires Carries(Content(mine), KEY, SEPARATORS, '"', before, gap, id, after)
    requires |before| + |KEY| + |gap| + |id| + 2 + width <= limit + 1
    ensures LineItem(decode, mine, limit) == Refuse(id)
  {
    KeptIsPrefix(mine, limit);
    KeptIsLong(mine, limit, width);
    var short := CarriesInPrefix(Content(mine), Kept(mine, limit), KEY, SEPARATORS, '"', before, gap, id, after);
    QuotedAfterFinds(Kept(mine, limit), KEY, SEPARATORS, '"', before, gap, id, short);
  }
}
