/**
 * The stats document `stats/summary.json` as the JavaScript object the
 * extension manipulates: an ordered list of keys with numeric values,
 * the `++` it applies to them, and its pretty-printed JSON text.
 */
module StatsDoc {
  import opened Wrappers
  import opened JsText
  import opened Json

  /** A property value: an integer, `NaN` (from `undefined++`) or `null` (how JSON carries `NaN`). */
  datatype Count = Num(n: int) | NaN | Null

  datatype Entry = Entry(key: string, value: Count)

  /**
   * Properties in insertion order.  `JSON.stringify` visits a JavaScript
   * object's array-index keys first, in ascending order; that order for
   * numeric keys is not modelled.
   */
  type Stats = seq<Entry>

  predicate HasKey(st: Stats, k: string)
  {
    exists i :: 0 <= i < |st| && st[i].key == k
  }

  predicate DistinctKeys(st: Stats)
  {
    forall i, j :: 0 <= i < j < |st| ==> st[i].key != st[j].key
  }

  lemma HasKeyCons(st: Stats, k: string)
    requires st != []
    ensures HasKey(st, k) <==> st[0].key == k || HasKey(st[1..], k)
  {
    if HasKey(st[1..], k) {
      var i :| 0 <= i < |st[1..]| && st[1..][i].key == k;
      assert st[i + 1].key == k;
    }
    if HasKey(st, k) && st[0].key != k {
      var i :| 0 <= i < |st| && st[i].key == k;
      assert st[1..][i - 1].key == k;
    }
  }

  /** `st[k]`: the value of the first property named `k`, None for `undefined`. */
  function Get(st: Stats, k: string): (r: Option<Count>)
    ensures r.None? <==> !HasKey(st, k)
  {
    if st == [] then None
    else if st[0].key == k then Some(st[0].value)
    else
      HasKeyCons(st, k);
      Get(st[1..], k)
  }

  /** `st[k] = v`: overwrite an existing property in place, or append a new one. */
  function Set(st: Stats, k: string, v: Count): Stats
  {
    if st == [] then [Entry(k, v)]
    else if st[0].key == k then [Entry(k, v)] + st[1..]
    else [st[0]] + Set(st[1..], k, v)
  }

  lemma {:induction false} GetSet(st: Stats, k: string, v: Count, k': string)
    ensures Get(Set(st, k, v), k') == if k' == k then Some(v) else Get(st, k')
  {
    if st != [] && st[0].key != k {
      GetSet(st[1..], k, v, k');
      assert Set(st, k, v)[1..] == Set(st[1..], k, v);
    }
  }

  lemma {:induction false} SetAbsent(st: Stats, k: string, v: Count)
    requires !HasKey(st, k)
    ensures Set(st, k, v) == st + [Entry(k, v)]
  {
    if st != [] {
      HasKeyCons(st, k);
      SetAbsent(st[1..], k, v);
      assert st == [st[0]] + st[1..];
    }
  }

  /** The key order is kept by `Set`; a new key goes last. */
  lemma {:induction false} SetKeys(st: Stats, k: string, v: Count)
    ensures |Set(st, k, v)| == if HasKey(st, k) then |st| else |st| + 1
    ensures forall i :: 0 <= i < |st| ==> Set(st, k, v)[i].key == st[i].key
    ensures !HasKey(st, k) ==> Set(st, k, v)[|st|].key == k
  {
    if st != [] && st[0].key != k {
      SetKeys(st[1..], k, v);
      HasKeyCons(st, k);
    } else if st != [] {
      assert HasKey(st, k) by { assert st[0].key == k; }
    }
  }

  /** JavaScript's `x++` on a property read: `undefined` and `NaN` give `NaN`; `null` counts as 0. */
  function Increment(v: Option<Count>): Count
  {
    match v
    case None => NaN
    case Some(Num(n)) => Num(n + 1)
    case Some(NaN) => NaN
    case Some(Null) => Num(1)
  }

  /** `stats[k] = v` lands on an own property: any name but `__proto__`, or an own `__proto__`. */
  predicate Settable(st: Stats, k: string)
  {
    k != "__proto__" || HasKey(st, k)
  }

  /**
   * The statement `stats[k] = v` for a counter value `v`.  Every name but
   * `__proto__` becomes or stays an own property, as `Set` does.  Without an
   * own `__proto__` property, `stats.__proto__ = v` goes to the inherited
   * accessor, which ignores a value that is not an object, so nothing changes.
   */
  function Assign(st: Stats, k: string, v: Count): Stats
  {
    if Settable(st, k) then Set(st, k, v) else st
  }

  lemma AssignGet(st: Stats, k: string, v: Count, k': string)
    ensures Get(Assign(st, k, v), k') == if k' == k && Settable(st, k) then Some(v) else Get(st, k')
    ensures !Settable(st, k) ==> Assign(st, k, v) == st
  {
    if Settable(st, k) {
      GetSet(st, k, v, k');
    }
  }

  /**
   * `stats[diff]++; stats.Total++;`.  Reading an absent `__proto__` gives the
   * inherited prototype object, and `++` makes that `NaN` just as it does for
   * `undefined`, so `Get` returning `None` serves for the read.
   */
  function Bump(st: Stats, diff: string): Stats
  {
    var s1 := Assign(st, diff, Increment(Get(st, diff)));
    Assign(s1, "Total", Increment(Get(s1, "Total")))
  }

  /** The four counter names, in the order `DEFAULT_STATS` lists them. */
  const CounterNames: seq<string> := ["Easy", "Medium", "Hard", "Total"]

  /** `DEFAULT_STATS`: every counter at zero. */
  function Default(): (r: Stats)
    ensures |r| == 4 && forall i :: 0 <= i < 4 ==> r[i] == Entry(CounterNames[i], Num(0))
  {
    seq(4, i requires 0 <= i < 4 => Entry(CounterNames[i], Num(0)))
  }

  predicate IsNum(v: Option<Count>) { v.Some? && v.value.Num? }

  function NumOf(v: Option<Count>): int requires IsNum(v) { v.value.n }

  /**
   * The diff bucket and `Total` each rise by one (`Total` by two when the
   * difficulty itself is "Total"); every other property keeps its value.  A
   * `__proto__` difficulty with no own property gains no key: only `Total`
   * moves.
   */
  lemma BumpCounts(st: Stats, diff: string, k: string)
    ensures diff != "Total" && Settable(st, diff) ==> Get(Bump(st, diff), diff) == Some(Increment(Get(st, diff)))
    ensures !Settable(st, diff) ==>
      Get(Bump(st, diff), diff) == None && Bump(st, diff) == Set(st, "Total", Increment(Get(st, "Total")))
    ensures diff != "Total" ==> Get(Bump(st, diff), "Total") == Some(Increment(Get(st, "Total")))
    ensures diff == "Total" ==> Get(Bump(st, diff), "Total") == Some(Increment(Some(Increment(Get(st, "Total")))))
    ensures k != diff && k != "Total" ==> Get(Bump(st, diff), k) == Get(st, k)
  {
    var s1 := Assign(st, diff, Increment(Get(st, diff)));
    AssignGet(st, diff, Increment(Get(st, diff)), diff);
    AssignGet(st, diff, Increment(Get(st, diff)), "Total");
    AssignGet(st, diff, Increment(Get(st, diff)), k);
    GetSet(s1, "Total", Increment(Get(s1, "Total")), diff);
    GetSet(s1, "Total", Increment(Get(s1, "Total")), "Total");
    GetSet(s1, "Total", Increment(Get(s1, "Total")), k);
  }

  /**
   * A first push whose difficulty is `__proto__` writes the four counters of
   * `DEFAULT_STATS` with only `Total` raised, and no `__proto__` property.
   */
  lemma BumpDefaultProto()
    ensures Bump(Default(), "__proto__") == Default()[..3] + [Entry("Total", Num(1))]
    ensures !HasKey(Bump(Default(), "__proto__"), "__proto__")
  {
    var d := Default();
    assert !HasKey(d, "__proto__") by {
      forall i | 0 <= i < |d| ensures d[i].key != "__proto__" {
        assert d[i].key in CounterNames;
      }
    }
    DefaultKeys();
    GetFirst(d, 3);
    AssignGet(d, "__proto__", NaN, "Total");
    assert Bump(d, "__proto__") == Set(d, "Total", Num(1));
    SetFirst(d, 3, Num(1));
    assert d[4..] == [];
    SetKeys(d, "Total", Num(1));
  }

  /** The three buckets add up to `Total`. */
  predicate Balanced(st: Stats)
  {
    && IsNum(Get(st, "Easy")) && IsNum(Get(st, "Medium")) && IsNum(Get(st, "Hard")) && IsNum(Get(st, "Total"))
    && NumOf(Get(st, "Total")) == NumOf(Get(st, "Easy")) + NumOf(Get(st, "Medium")) + NumOf(Get(st, "Hard"))
  }

  /** `Bump` keeps `Total == Easy + Medium + Hard` for the three real difficulties. */
  lemma BumpBalanced(st: Stats, diff: string)
    requires Balanced(st)
    requires diff == "Easy" || diff == "Medium" || diff == "Hard"
    ensures Balanced(Bump(st, diff))
  {
    BumpCounts(st, diff, "Easy");
    BumpCounts(st, diff, "Medium");
    BumpCounts(st, diff, "Hard");
  }

  /** For any other difficulty the buckets stay as they were while `Total` moves, so the balance is lost. */
  lemma BumpUnbalances(st: Stats, diff: string)
    requires Balanced(st)
    requires diff != "Easy" && diff != "Medium" && diff != "Hard"
    ensures !Balanced(Bump(st, diff))
  {
    BumpCounts(st, diff, "Easy");
    BumpCounts(st, diff, "Medium");
    BumpCounts(st, diff, "Hard");
  }

  /** The first property with a name is the one a read finds. */
  lemma {:induction false} GetFirst(st: Stats, i: nat)
    requires i < |st| && forall j :: 0 <= j < i ==> st[j].key != st[i].key
    ensures Get(st, st[i].key) == Some(st[i].value)
  {
    if i > 0 {
      assert st[1..][i - 1] == st[i];
      GetFirst(st[1..], i - 1);
    }
  }

  /** Assigning to the first property with a name replaces it where it stands. */
  lemma {:induction false} SetFirst(st: Stats, i: nat, v: Count)
    requires i < |st| && forall j :: 0 <= j < i ==> st[j].key != st[i].key
    ensures Set(st, st[i].key, v) == st[..i] + [Entry(st[i].key, v)] + st[i + 1..]
  {
    if i > 0 {
      var t := st[1..];
      assert t[i - 1] == st[i];
      SetFirst(t, i - 1, v);
      assert t[..i - 1] == st[1..i];
      assert t[i..] == st[i + 1..];
      assert st[..i] == [st[0]] + st[1..i];
    }
  }

  lemma DefaultBalanced()
    ensures Balanced(Default())
  {
    var d := Default();
    DefaultKeys();
    GetFirst(d, 0);
    GetFirst(d, 1);
    GetFirst(d, 2);
    GetFirst(d, 3);
  }

  // ---- JSON.stringify(stats, null, 2) ----

  function ValueText(v: Count): string
  {
    match v
    case Num(n) => IntToString(n)
    case NaN => "null"
    case Null => "null"
  }

  function MemberText(e: Entry): string
  {
    "  " + (Quote(e.key) + (": " + ValueText(e.value)))
  }

  /** The members of `es`, separated by `,` and a newline, followed by `tail`. */
  function MembersThen(es: Stats, tail: string): string
    requires |es| > 0
  {
    if |es| == 1 then MemberText(es[0]) + tail else MemberText(es[0]) + (",\n" + MembersThen(es[1..], tail))
  }

  /** `JSON.stringify(stats, null, 2)` for a flat object of numbers. */
  function Stringify(st: Stats): string
  {
    if st == [] then "{}" else "{\n" + MembersThen(st, "\n}")
  }

  // ---- JSON.parse, for flat objects whose values are integers or null ----

  function ParseValue(s: string): (r: Option<(Count, string)>)
    ensures r.Some? ==> |r.value.1| < |s|
  {
    if |s| >= 4 && s[..4] == "null" then Some((Null, s[4..]))
    else
      match ParseInt(s)
      case None => None
      case Some((n, rest)) => Some((Num(n), rest))
  }

  /** One `"key": value` member, with the whitespace JSON allows around its parts. */
  function ParseMember(s: string): (r: Option<(string, Count, string)>)
    ensures r.Some? ==> |r.value.2| < |s|
  {
    match ParseString(SkipWs(s))
    case None => None
    case Some((k, r1)) =>
      var r2 := SkipWs(r1);
      if r2 == [] || r2[0] != ':' then None
      else
        match ParseValue(SkipWs(r2[1..]))
        case None => None
        case Some((v, r3)) => Some((k, v, r3))
  }

  /** Members up to the closing brace, each added as `JSON.parse` adds it (a repeated key overwrites). */
  function ParseMembers(s: string, acc: Stats): Option<(Stats, string)>
    decreases |s|
  {
    match ParseMember(s)
    case None => None
    case Some((k, v, r)) =>
      var acc' := Set(acc, k, v);
      var r' := SkipWs(r);
      if r' != [] && r'[0] == ',' then ParseMembers(r'[1..], acc')
      else if r' != [] && r'[0] == '}' then Some((acc', r'[1..]))
      else None
  }

  /**
   * `JSON.parse` of a stats text: a JSON object whose values are integers
   * or `null`, surrounded by any JSON whitespace.  None is a text
   * `JSON.parse` throws on, or one outside this fragment of JSON.
   */
  function Parse(text: string): Option<Stats>
  {
    var t := SkipWs(text);
    if t == [] || t[0] != '{' then None
    else
      var u := SkipWs(t[1..]);
      if u != [] && u[0] == '}' then (if SkipWs(u[1..]) == [] then Some([]) else None)
      else
        match ParseMembers(t[1..], [])
        case None => None
        case Some((st, rest)) => if SkipWs(rest) == [] then Some(st) else None
  }

  /** What survives a JSON round trip: `NaN` comes back as `null`. */
  function CanonValue(v: Count): Count
  {
    if v.NaN? then Null else v
  }

  function Canon(st: Stats): (r: Stats)
    ensures |r| == |st|
    ensures forall i :: 0 <= i < |st| ==> r[i] == Entry(st[i].key, CanonValue(st[i].value))
  {
    seq(|st|, i requires 0 <= i < |st| => Entry(st[i].key, CanonValue(st[i].value)))
  }

  lemma ValueTextStart(v: Count)
    ensures |ValueText(v)| > 0
    ensures var c := ValueText(v)[0]; c == 'n' || c == '-' || IsDigit(c)
  {
  }

  lemma ParseValueText(v: Count, tail: string)
    requires tail == [] || !IsDigit(tail[0])
    ensures ParseValue(ValueText(v) + tail) == Some((CanonValue(v), tail))
  {
    var t := ValueText(v) + tail;
    match v
    case Num(n) =>
      ParseIntOfString(n, tail);
      assert t[0] == '-' || IsDigit(t[0]);
      assert |t| >= 4 ==> t[..4][0] == t[0];
    case NaN =>
      assert t[..4] == "null" && t[4..] == tail;
    case Null =>
      assert t[..4] == "null" && t[4..] == tail;
  }

  lemma Assoc(a: string, b: string, c: string)
    ensures (a + b) + c == a + (b + c)
  {
  }

  lemma MemberTextSplit(e: Entry, tail: string, w: string)
    requires forall i :: 0 <= i < |w| ==> IsWs(w[i])
    ensures SkipWs(w + (MemberText(e) + tail)) == Quote(e.key) + (": " + ValueText(e.value) + tail)
  {
    var q := Quote(e.key);
    var vt := ValueText(e.value);
    var x := ": " + vt + tail;
    calc {
      w + (MemberText(e) + tail);
      w + (("  " + (q + (": " + vt))) + tail);
      { Assoc("  ", q + (": " + vt), tail); }
      w + ("  " + ((q + (": " + vt)) + tail));
      { Assoc(q, ": " + vt, tail); }
      w + ("  " + (q + ((": " + vt) + tail)));
      { Assoc(w, "  ", q + x); }
      (w + "  ") + (q + x);
    }
    assert q[0] == '"';
    SkipWsPrefix(w + "  ", q + x);
  }

  lemma AfterColon(v: Count, tail: string)
    ensures var x := ": " + ValueText(v) + tail;
            SkipWs(x) == x && x[0] == ':' && SkipWs(x[1..]) == ValueText(v) + tail
  {
    var vt := ValueText(v);
    var x := ": " + vt + tail;
    assert x[1..] == " " + (vt + tail);
    ValueTextStart(v);
    SkipWsPrefix(" ", vt + tail);
  }

  lemma ParseMemberOf(e: Entry, tail: string, w: string)
    requires forall i :: 0 <= i < |w| ==> IsWs(w[i])
    requires tail == [] || !IsDigit(tail[0])
    ensures ParseMember(w + (MemberText(e) + tail)) == Some((e.key, CanonValue(e.value), tail))
  {
    var x := ": " + ValueText(e.value) + tail;
    MemberTextSplit(e, tail, w);
    ParseQuote(e.key, x);
    AfterColon(e.value, tail);
    ParseValueText(e.value, tail);
  }

  lemma DistinctAfterFirst(acc: Stats, es: Stats)
    requires |es| > 0 && DistinctKeys(acc + es)
    ensures !HasKey(acc, es[0].key)
    ensures DistinctKeys((acc + [Entry(es[0].key, CanonValue(es[0].value))]) + es[1..])
  {
    var acc' := acc + [Entry(es[0].key, CanonValue(es[0].value))];
    forall i | 0 <= i < |acc| ensures acc[i].key != es[0].key {
      assert (acc + es)[i].key == acc[i].key && (acc + es)[|acc|].key == es[0].key;
    }
    forall i, j | 0 <= i < j < |acc' + es[1..]|
      ensures (acc' + es[1..])[i].key != (acc' + es[1..])[j].key
    {
      assert (acc' + es[1..])[i].key == (acc + es)[i].key;
      assert (acc' + es[1..])[j].key == (acc + es)[j].key;
    }
  }

  lemma ParseMembersLast(s: string, acc: Stats, k: string, v: Count, r: string, rest: string)
    requires ParseMember(s) == Some((k, v, r)) && SkipWs(r) == "}" + rest
    ensures ParseMembers(s, acc) == Some((Set(acc, k, v), rest))
  {
    assert ("}" + rest)[1..] == rest;
  }

  lemma ParseMembersMore(s: string, acc: Stats, k: string, v: Count, r: string, r2: string)
    requires ParseMember(s) == Some((k, v, r)) && SkipWs(r) == "," + r2
    ensures ParseMembers(s, acc) == ParseMembers(r2, Set(acc, k, v))
  {
    assert ("," + r2)[1..] == r2;
  }

  lemma ParseLastMember(e: Entry, rest: string, acc: Stats, w: string)
    requires forall i :: 0 <= i < |w| ==> IsWs(w[i])
    ensures ParseMembers(w + (MemberText(e) + ("\n}" + rest)), acc) == Some((Set(acc, e.key, CanonValue(e.value)), rest))
  {
    var close := "\n}" + rest;
    ParseMemberOf(e, close, w);
    assert close == "\n" + ("}" + rest);
    SkipWsPrefix("\n", "}" + rest);
    ParseMembersLast(w + (MemberText(e) + close), acc, e.key, CanonValue(e.value), close, rest);
  }

  lemma ParseNextMember(e: Entry, m: string, acc: Stats, w: string)
    requires forall i :: 0 <= i < |w| ==> IsWs(w[i])
    ensures ParseMembers(w + (MemberText(e) + (",\n" + m)), acc) == ParseMembers("\n" + m, Set(acc, e.key, CanonValue(e.value)))
  {
    var tail := ",\n" + m;
    ParseMemberOf(e, tail, w);
    assert SkipWs(tail) == tail;
    assert tail == "," + ("\n" + m);
    ParseMembersMore(w + (MemberText(e) + tail), acc, e.key, CanonValue(e.value), tail, "\n" + m);
  }

  /** Moving the first member, canonicalised, onto the accumulated members. */
  lemma AccCanon(acc: Stats, es: Stats)
    requires |es| > 0
    ensures (acc + [Entry(es[0].key, CanonValue(es[0].value))]) + Canon(es[1..]) == acc + Canon(es)
  {
    assert Canon(es) == [Entry(es[0].key, CanonValue(es[0].value))] + Canon(es[1..]);
  }

  /** The last member of the body, then the closing brace. */
  lemma ParseMembersTextLast(e: Entry, rest: string, acc: Stats, w: string)
    requires forall i :: 0 <= i < |w| ==> IsWs(w[i])
    requires !HasKey(acc, e.key)
    ensures ParseMembers(w + MembersThen([e], "\n}" + rest), acc) == Some((acc + Canon([e]), rest))
  {
    ParseLastMember(e, rest, acc, w);
    SetAbsent(acc, e.key, CanonValue(e.value));
    assert Canon([e]) == [Entry(e.key, CanonValue(e.value))];
  }

  /** One member followed by more: the parse goes on after the comma with the member added. */
  lemma ParseMembersTextNext(es: Stats, rest: string, acc: Stats, w: string)
    requires |es| > 1
    requires forall i :: 0 <= i < |w| ==> IsWs(w[i])
    requires !HasKey(acc, es[0].key)
    ensures ParseMembers(w + MembersThen(es, "\n}" + rest), acc)
         == ParseMembers("\n" + MembersThen(es[1..], "\n}" + rest), acc + [Entry(es[0].key, CanonValue(es[0].value))])
  {
    ParseNextMember(es[0], MembersThen(es[1..], "\n}" + rest), acc, w);
    SetAbsent(acc, es[0].key, CanonValue(es[0].value));
  }

  lemma {:induction false} ParseMembersText(es: Stats, rest: string, acc: Stats, w: string)
    requires |es| > 0
    requires forall i :: 0 <= i < |w| ==> IsWs(w[i])
    requires DistinctKeys(acc + es)
    ensures ParseMembers(w + MembersThen(es, "\n}" + rest), acc) == Some((acc + Canon(es), rest))
    decreases |es|
  {
    DistinctAfterFirst(acc, es);
    if |es| == 1 {
      assert es == [es[0]];
      ParseMembersTextLast(es[0], rest, acc, w);
    } else {
      ParseMembersTextNext(es, rest, acc, w);
      ParseMembersText(es[1..], rest, acc + [Entry(es[0].key, CanonValue(es[0].value))], "\n");
      AccCanon(acc, es);
    }
  }

  /** A text `{` + body parses to the members the body holds when the body does not open with the closing brace. */
  lemma ParseObject(body: string, st: Stats)
    requires SkipWs(body) != [] && SkipWs(body)[0] != '}'
    requires ParseMembers(body, []) == Some((st, []))
    ensures Parse("{" + body) == Some(st)
  {
    var text := "{" + body;
    assert SkipWs(text) == text;
    assert text[1..] == body;
  }

  /** Parsing the stringified document gives it back, with `NaN` read as `null`. */
  lemma ParseStringify(st: Stats)
    requires DistinctKeys(st)
    ensures Parse(Stringify(st)) == Some(Canon(st))
  {
    if st == [] {
      assert Stringify(st) == "{}";
      assert Canon(st) == [];
    } else {
      var m := MembersThen(st, "\n}");
      assert "\n}" + [] == "\n}";
      assert Stringify(st) == "{" + ("\n" + m);
      var e := st[0];
      var after := if |st| == 1 then "\n}" else ",\n" + MembersThen(st[1..], "\n}");
      assert m == MemberText(e) + after;
      MemberTextSplit(e, after, "\n");
      assert [] + st == st;
      ParseMembersText(st, [], [], "\n");
      assert [] + Canon(st) == Canon(st);
      ParseObject("\n" + m, Canon(st));
    }
  }

  predicate KeysAscii(st: Stats)
  {
    forall i :: 0 <= i < |st| ==> IsAscii(st[i].key)
  }

  lemma ValueTextAscii(v: Count)
    ensures IsAscii(ValueText(v))
  {
    if v.Num? {
      NatToStringAscii(if v.n < 0 then -v.n else v.n);
      if v.n < 0 { AsciiConcat("-", NatToString(-v.n)); }
    }
  }

  lemma MemberTextAscii(e: Entry, tail: string)
    requires IsAscii(e.key) && IsAscii(tail)
    ensures IsAscii(MemberText(e) + tail)
  {
    QuoteAscii(e.key);
    ValueTextAscii(e.value);
    AsciiConcat(": ", ValueText(e.value));
    AsciiConcat(Quote(e.key), ": " + ValueText(e.value));
    AsciiConcat("  ", Quote(e.key) + (": " + ValueText(e.value)));
    AsciiConcat(MemberText(e), tail);
  }

  lemma {:induction false} MembersThenAscii(es: Stats, tail: string)
    requires |es| > 0 && KeysAscii(es) && IsAscii(tail)
    ensures IsAscii(MembersThen(es, tail))
    decreases |es|
  {
    if |es| == 1 {
      MemberTextAscii(es[0], tail);
    } else {
      MembersThenAscii(es[1..], tail);
      AsciiConcat(",\n", MembersThen(es[1..], tail));
      MemberTextAscii(es[0], ",\n" + MembersThen(es[1..], tail));
    }
  }

  /** With ASCII property names the stats text is ASCII, so its UTF-8 bytes are its own characters. */
  lemma StringifyAscii(st: Stats)
    requires KeysAscii(st)
    ensures IsAscii(Stringify(st))
  {
    if st != [] {
      MembersThenAscii(st, "\n}");
      AsciiConcat("{\n", MembersThen(st, "\n}"));
    }
  }

  lemma SetPreservesKeys(st: Stats, k: string, v: Count)
    ensures DistinctKeys(st) ==> DistinctKeys(Set(st, k, v))
    ensures KeysAscii(st) && IsAscii(k) ==> KeysAscii(Set(st, k, v))
  {
    SetKeys(st, k, v);
  }

  /** A bumped document still has one property per name, and ASCII names when the difficulty is ASCII. */
  lemma BumpPreservesKeys(st: Stats, diff: string)
    ensures DistinctKeys(st) ==> DistinctKeys(Bump(st, diff))
    ensures KeysAscii(st) && IsAscii(diff) ==> KeysAscii(Bump(st, diff))
  {
    var s1 := Assign(st, diff, Increment(Get(st, diff)));
    SetPreservesKeys(st, diff, Increment(Get(st, diff)));
    SetPreservesKeys(s1, "Total", Increment(Get(s1, "Total")));
  }

  /** Every property holds a number, as after a round trip through JSON that never met `NaN`. */
  predicate AllNum(st: Stats)
  {
    forall i :: 0 <= i < |st| ==> st[i].value.Num?
  }

  lemma CanonAllNum(st: Stats)
    requires AllNum(st)
    ensures Canon(st) == st
  {
  }

  lemma {:induction false} GetAllNum(st: Stats, k: string)
    requires AllNum(st) && HasKey(st, k)
    ensures IsNum(Get(st, k))
  {
    HasKeyCons(st, k);
    if st[0].key != k {
      GetAllNum(st[1..], k);
    }
  }

  lemma {:induction false} SetAllNum(st: Stats, k: string, n: int)
    requires AllNum(st)
    ensures AllNum(Set(st, k, Num(n)))
  {
    if st != [] && st[0].key != k {
      SetAllNum(st[1..], k, n);
      assert Set(st, k, Num(n)) == [st[0]] + Set(st[1..], k, Num(n));
    }
  }

  /** Bumping two existing numeric counters leaves only numbers behind. */
  lemma BumpAllNum(st: Stats, diff: string)
    requires AllNum(st) && HasKey(st, diff) && HasKey(st, "Total")
    ensures AllNum(Bump(st, diff))
  {
    GetAllNum(st, diff);
    var s1 := Assign(st, diff, Increment(Get(st, diff)));
    SetAllNum(st, diff, Get(st, diff).value.n + 1);
    GetSet(st, diff, Increment(Get(st, diff)), "Total");
    GetAllNum(st, "Total");
    if diff == "Total" {
      SetAllNum(s1, "Total", Get(s1, "Total").value.n + 1);
    } else {
      SetAllNum(s1, "Total", Get(st, "Total").value.n + 1);
    }
  }

  lemma DefaultAllNum(k: string)
    requires k in CounterNames
    ensures AllNum(Default()) && HasKey(Default(), k)
  {
    var i :| 0 <= i < 4 && CounterNames[i] == k;
    assert Default()[i].key == k;
  }

  /** The four counter names are distinct ASCII keys. */
  lemma DefaultKeys()
    ensures DistinctKeys(Default()) && KeysAscii(Default())
  {
    var d := Default();
    forall i, j | 0 <= i < j < |d| ensures d[i].key != d[j].key {
      assert d[i].key[0] != d[j].key[0];
    }
    forall i | 0 <= i < |d| ensures IsAscii(d[i].key) {
      assert d[i].key in CounterNames;
    }
  }

  /**
   * One bump of `DEFAULT_STATS` by a real difficulty is a well-formed,
   * numeric document that survives a JSON round trip unchanged, and a
   * second bump keeps the balance.
   */
  lemma BumpDefault(d1: string, d2: string)
    requires d1 == "Easy" || d1 == "Medium" || d1 == "Hard"
    requires d2 == "Easy" || d2 == "Medium" || d2 == "Hard"
    ensures var first := Bump(Default(), d1);
            && DistinctKeys(first) && KeysAscii(first) && Canon(first) == first
            && Balanced(Bump(first, d2))
  {
    var first := Bump(Default(), d1);
    DefaultAllNum(d1);
    DefaultAllNum("Total");
    BumpAllNum(Default(), d1);
    CanonAllNum(first);
    DefaultKeys();
    BumpPreservesKeys(Default(), d1);
    DefaultBalanced();
    BumpBalanced(Default(), d1);
    BumpBalanced(first, d2);
  }

  lemma CanonPreservesKeys(st: Stats)
    ensures DistinctKeys(st) ==> DistinctKeys(Canon(st))
    ensures KeysAscii(st) ==> KeysAscii(Canon(st))
  {
  }
}
