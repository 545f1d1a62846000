/**
  The wp-config parser's two text patterns and how their matches fill the
  configuration map.

  Each pattern is written as a list of tokens, read off its regular
  expression:
    define\(\s*['"]([^'"]+)['"]\s*,\s*['"]([^'"]+)['"]\s*\)
    \$(\w+)\s*=\s*['"]([^'"]+)['"]\s*;
  Neither needs backtracking: every repetition is followed by something that
  cannot continue it (`Unambiguous`), so taking the longest run each time is
  the only way to match. `MatchTokens` does exactly that, and is proved
  to find a match at a position exactly when the text there is an instance
  of the pattern, with the captures of that instance.
 */
module WpConfig {
  import opened Wrappers

  // ---------------------------------------------------------------------
  // Character classes
  // ---------------------------------------------------------------------

  datatype CharClass =
    | SpaceClass      // \s: space, tab, line feed, vertical tab, form feed, carriage return
    | WordClass       // \w: ASCII letters, digits and underscore
    | QuoteClass      // ['"]
    | NonQuoteClass   // [^'"]

  predicate IsQuote(ch: char)
  {
    ch == '\'' || ch == '"'
  }

  predicate In(cls: CharClass, ch: char)
  {
    match cls
    case SpaceClass => ch == ' ' || '\t' <= ch <= '\r'
    case WordClass => 'a' <= ch <= 'z' || 'A' <= ch <= 'Z' || '0' <= ch <= '9' || ch == '_'
    case QuoteClass => IsQuote(ch)
    case NonQuoteClass => !IsQuote(ch)
  }

  predicate AllIn(cls: CharClass, s: string)
  {
    forall k :: 0 <= k < |s| ==> In(cls, s[k])
  }

  predicate Disjoint(a: CharClass, b: CharClass)
  {
    forall ch :: !(In(a, ch) && In(b, ch))
  }

  /** No stored text contains a quote. */
  predicate QuoteFree(s: string)
  {
    AllIn(NonQuoteClass, s)
  }

  // ---------------------------------------------------------------------
  // Positions in a text
  // ---------------------------------------------------------------------

  /** `s` occurs in `t` at position `i`. */
  predicate At(t: string, i: nat, s: string)
  {
    i + |s| <= |t| && t[i..i + |s|] == s
  }

  lemma AtConcat(t: string, i: nat, a: string, b: string)
    ensures At(t, i, a + b) <==> At(t, i, a) && At(t, i + |a|, b)
  {
    if i + |a| + |b| <= |t| {
      assert t[i..i + |a| + |b|] == t[i..i + |a|] + t[i + |a|..i + |a| + |b|];
      if At(t, i, a + b) {
        assert t[i..i + |a|] == (a + b)[..|a|] == a;
        assert t[i + |a|..i + |a| + |b|] == (a + b)[|a|..] == b;
      }
    }
  }

  /** The end of the longest run of characters of `cls` from `i`. */
  function Run(t: string, i: nat, cls: CharClass): (j: nat)
    requires i <= |t|
    ensures i <= j <= |t|
    ensures forall k :: i <= k < j ==> In(cls, t[k])
    ensures j == |t| || !In(cls, t[j])
    decreases |t| - i
  {
    if i < |t| && In(cls, t[i]) then Run(t, i + 1, cls) else i
  }

  /** A run followed by a character outside the class, or by the end of the
      text, is the longest one. */
  lemma {:induction false} RunExact(t: string, i: nat, s: string, cls: CharClass)
    requires At(t, i, s) && AllIn(cls, s)
    requires i + |s| == |t| || !In(cls, t[i + |s|])
    ensures Run(t, i, cls) == i + |s|
    decreases |s|
  {
    if |s| > 0 {
      assert t[i] == s[0];
      assert At(t, i + 1, s[1..]) by {
        assert t[i + 1..i + 1 + |s[1..]|] == t[i..i + |s|][1..];
      }
      RunExact(t, i + 1, s[1..], cls);
    }
  }

  // ---------------------------------------------------------------------
  // Patterns as token lists
  // ---------------------------------------------------------------------

  datatype Token =
    | Lit(text: string)        // the text itself
    | Many(cls: CharClass)     // X*
    | One(cls: CharClass)      // X
    | Group(cls: CharClass)    // (X+), captured

  /** The captures and the position after a match. */
  datatype Matched = Matched(captures: seq<string>, end: nat)

  /** The classes of the capture groups, in order. */
  function Groups(toks: seq<Token>): seq<CharClass>
  {
    if toks == [] then []
    else (if toks[0].Group? then [toks[0].cls] else []) + Groups(toks[1..])
  }

  /** Each capture is a non-empty run of its group's class. */
  predicate CapturesFit(groups: seq<CharClass>, caps: seq<string>)
  {
    |caps| == |groups| && forall k :: 0 <= k < |caps| ==> |caps[k]| > 0 && AllIn(groups[k], caps[k])
  }

  lemma CapturesFitCons(c: CharClass, groups: seq<CharClass>, cap: string, caps: seq<string>)
    requires |cap| > 0 && AllIn(c, cap) && CapturesFit(groups, caps)
    ensures CapturesFit([c] + groups, [cap] + caps)
  {
    var gs, cs := [c] + groups, [cap] + caps;
    forall k | 0 <= k < |cs| ensures |cs[k]| > 0 && AllIn(gs[k], cs[k]) {
      if k > 0 {
        assert cs[k] == caps[k - 1] && gs[k] == groups[k - 1];
      }
    }
  }

  lemma RunSlice(t: string, i: nat, cls: CharClass)
    requires i <= |t|
    ensures AllIn(cls, t[i..Run(t, i, cls)])
  {
    var j := Run(t, i, cls);
    forall k | 0 <= k < j - i ensures In(cls, t[i..j][k]) {
      assert t[i..j][k] == t[i + k];
    }
  }

  /** Where the first token's match from `i` ends, repetitions taking their
      longest run. */
  function Step(tok: Token, t: string, i: nat): (r: Option<nat>)
    requires i <= |t|
    ensures r.Some? ==> i <= r.value <= |t|
  {
    match tok
    case Lit(s) => if At(t, i, s) then Some(i + |s|) else None
    case Many(c) => Some(Run(t, i, c))
    case One(c) => if i < |t| && In(c, t[i]) then Some(i + 1) else None
    case Group(c) => var j := Run(t, i, c); if j == i then None else Some(j)
  }

  /** Match `toks` at position `i`, token by token. */
  function MatchTokens(toks: seq<Token>, t: string, i: nat): (r: Option<Matched>)
    requires i <= |t|
    ensures r.Some? ==> i <= r.value.end <= |t|
    ensures r.Some? && toks != [] && toks[0].Lit? ==> i + |toks[0].text| <= r.value.end
    decreases |toks|
  {
    if toks == [] then Some(Matched([], i))
    else
      match Step(toks[0], t, i)
      case None => None
      case Some(j) =>
        match MatchTokens(toks[1..], t, j)
        case None => None
        case Some(m) =>
          Some(Matched((if toks[0].Group? then [t[i..j]] else []) + m.captures, m.end))
  }

  /** Each capture is a non-empty run of its group's class. */
  lemma {:induction false} MatchTokensCaptures(toks: seq<Token>, t: string, i: nat)
    requires i <= |t| && MatchTokens(toks, t, i).Some?
    ensures CapturesFit(Groups(toks), MatchTokens(toks, t, i).value.captures)
    decreases |toks|
  {
    if toks != [] {
      var j := Step(toks[0], t, i).value;
      MatchTokensCaptures(toks[1..], t, j);
      var m := MatchTokens(toks[1..], t, j).value;
      if toks[0].Group? {
        RunSlice(t, i, toks[0].cls);
        CapturesFitCons(toks[0].cls, Groups(toks[1..]), t[i..j], m.captures);
      }
    }
  }

  /** Does `piece` fit the token? */
  predicate Fits(tok: Token, piece: string)
  {
    match tok
    case Lit(s) => piece == s
    case Many(c) => AllIn(c, piece)
    case One(c) => |piece| == 1 && In(c, piece[0])
    case Group(c) => |piece| > 0 && AllIn(c, piece)
  }

  /** `pieces` is one way of filling in the pattern, piece by piece. */
  predicate Instance(toks: seq<Token>, pieces: seq<string>)
  {
    |toks| == |pieces| && forall k :: 0 <= k < |toks| ==> Fits(toks[k], pieces[k])
  }

  function Concat(pieces: seq<string>): string
  {
    if pieces == [] then "" else pieces[0] + Concat(pieces[1..])
  }

  function Captures(toks: seq<Token>, pieces: seq<string>): seq<string>
    requires |toks| == |pieces|
  {
    if toks == [] then []
    else (if toks[0].Group? then [pieces[0]] else []) + Captures(toks[1..], pieces[1..])
  }

  /** Whatever fills `rest` is non-empty and does not start with a character
      of `cls`. */
  predicate Guarded(cls: CharClass, rest: seq<Token>)
  {
    && rest != []
    && match rest[0]
       case Lit(s) => |s| > 0 && !In(cls, s[0])
       case One(c) => Disjoint(c, cls)
       case Group(c) => Disjoint(c, cls)
       case Many(c) => Disjoint(c, cls) && Guarded(cls, rest[1..])
  }

  /** Every repetition is guarded by what follows it. */
  predicate Unambiguous(toks: seq<Token>)
  {
    && (toks != [] && (toks[0].Many? || toks[0].Group?) ==> Guarded(toks[0].cls, toks[1..]))
    && (toks != [] ==> Unambiguous(toks[1..]))
  }

  lemma InstanceTail(toks: seq<Token>, pieces: seq<string>)
    requires Instance(toks, pieces) && toks != []
    ensures Fits(toks[0], pieces[0]) && Instance(toks[1..], pieces[1..])
  {
    assert Fits(toks[0], pieces[0]);
    forall k | 0 <= k < |toks| - 1 ensures Fits(toks[1..][k], pieces[1..][k]) {
      assert Fits(toks[k + 1], pieces[k + 1]);
    }
  }

  lemma {:induction false} GuardedFirst(cls: CharClass, rest: seq<Token>, pieces: seq<string>)
    requires Guarded(cls, rest) && Instance(rest, pieces)
    ensures |Concat(pieces)| > 0 && !In(cls, Concat(pieces)[0])
    decreases |rest|
  {
    InstanceTail(rest, pieces);
    var whole := Concat(pieces);
    assert whole == pieces[0] + Concat(pieces[1..]);
    if |pieces[0]| > 0 {
      assert whole[0] == pieces[0][0];
    } else {
      assert whole == Concat(pieces[1..]);
      GuardedFirst(cls, rest[1..], pieces[1..]);
    }
  }

  /** A piece that fits the first token, and is followed by something its
      repetition cannot continue with, is where the first step ends. */
  lemma StepComplete(tok: Token, piece: string, t: string, i: nat)
    requires Fits(tok, piece) && At(t, i, piece)
    requires tok.Many? || tok.Group? ==> i + |piece| < |t| && !In(tok.cls, t[i + |piece|])
    ensures Step(tok, t, i) == Some(i + |piece|)
  {
    match tok
    case Lit(s) =>
    case Many(c) => RunExact(t, i, piece, c);
    case One(c) => assert t[i] == piece[0];
    case Group(c) => RunExact(t, i, piece, c);
  }

  /** The text a step consumes fits its token. */
  lemma StepSound(tok: Token, t: string, i: nat)
    requires i <= |t| && Step(tok, t, i).Some?
    ensures Fits(tok, t[i..Step(tok, t, i).value])
  {
    var j := Step(tok, t, i).value;
    match tok
    case Lit(s) =>
    case Many(c) => RunSlice(t, i, c);
    case One(c) => assert t[i..j] == [t[i]];
    case Group(c) => RunSlice(t, i, c);
  }

  lemma MatchTokensUnfold(toks: seq<Token>, t: string, i: nat, j: nat, m: Matched)
    requires i <= |t| && toks != [] && Step(toks[0], t, i) == Some(j)
    requires MatchTokens(toks[1..], t, j) == Some(m)
    ensures MatchTokens(toks, t, i) ==
      Some(Matched((if toks[0].Group? then [t[i..j]] else []) + m.captures, m.end))
  {
  }

  lemma CapturesUnfold(toks: seq<Token>, pieces: seq<string>)
    requires |toks| == |pieces| && toks != []
    ensures Captures(toks, pieces) ==
      (if toks[0].Group? then [pieces[0]] else []) + Captures(toks[1..], pieces[1..])
  {
  }

  /** The first token of an instance of an unambiguous pattern ends where
      its piece does. */
  lemma FirstStepComplete(toks: seq<Token>, pieces: seq<string>, t: string, i: nat)
    requires toks != [] && Unambiguous(toks) && Instance(toks, pieces) && At(t, i, Concat(pieces))
    ensures Step(toks[0], t, i) == Some(i + |pieces[0]|) && t[i..i + |pieces[0]|] == pieces[0]
    ensures Unambiguous(toks[1..]) && Instance(toks[1..], pieces[1..])
    ensures At(t, i + |pieces[0]|, Concat(pieces[1..]))
    ensures |Concat(pieces)| == |pieces[0]| + |Concat(pieces[1..])|
  {
    InstanceTail(toks, pieces);
    var p0, rest := pieces[0], Concat(pieces[1..]);
    assert Concat(pieces) == p0 + rest;
    AtConcat(t, i, p0, rest);
    if toks[0].Many? || toks[0].Group? {
      GuardedFirst(toks[0].cls, toks[1..], pieces[1..]);
      assert t[i + |p0|] == rest[0];
    }
    StepComplete(toks[0], p0, t, i);
  }

  /** Completeness: an instance of an unambiguous pattern at `i` is what
      the matcher finds there. */
  lemma {:induction false} MatchTokensComplete(toks: seq<Token>, pieces: seq<string>, t: string, i: nat)
    requires Unambiguous(toks) && Instance(toks, pieces) && At(t, i, Concat(pieces))
    ensures MatchTokens(toks, t, i) == Some(Matched(Captures(toks, pieces), i + |Concat(pieces)|))
    decreases |toks|
  {
    if toks != [] {
      FirstStepComplete(toks, pieces, t, i);
      var j := i + |pieces[0]|;
      MatchTokensComplete(toks[1..], pieces[1..], t, j);
      MatchTokensUnfold(toks, t, i, j, Matched(Captures(toks[1..], pieces[1..]), j + |Concat(pieces[1..])|));
      CapturesUnfold(toks, pieces);
    }
  }

  lemma ConsInstance(toks: seq<Token>, p0: string, ps: seq<string>)
    requires toks != [] && Fits(toks[0], p0) && Instance(toks[1..], ps)
    ensures Instance(toks, [p0] + ps)
    ensures Concat([p0] + ps) == p0 + Concat(ps)
    ensures Captures(toks, [p0] + ps) == (if toks[0].Group? then [p0] else []) + Captures(toks[1..], ps)
  {
    var pieces := [p0] + ps;
    assert pieces[1..] == ps;
    forall k | 0 <= k < |toks| ensures Fits(toks[k], pieces[k]) {
      if k > 0 {
        assert toks[k] == toks[1..][k - 1] && pieces[k] == ps[k - 1];
      }
    }
  }

  /** The matcher, run at `i`, captures what `pieces` captures and ends
      where they do. */
  predicate MatchesAs(toks: seq<Token>, t: string, i: nat, pieces: seq<string>)
    requires i <= |t| && |toks| == |pieces|
  {
    MatchTokens(toks, t, i) == Some(Matched(Captures(toks, pieces), i + |Concat(pieces)|))
  }

  /** The pieces of text a successful match consumed, token by token. */
  function Consumed(toks: seq<Token>, t: string, i: nat): (pieces: seq<string>)
    requires i <= |t| && MatchTokens(toks, t, i).Some?
    ensures |pieces| == |toks|
    decreases |toks|
  {
    if toks == [] then []
    else
      var j := Step(toks[0], t, i).value;
      [t[i..j]] + Consumed(toks[1..], t, j)
  }

  /** Soundness: what the matcher consumed is an instance of the pattern,
      and the captures are that instance's. */
  lemma {:induction false} MatchTokensSound(toks: seq<Token>, t: string, i: nat)
    requires i <= |t| && MatchTokens(toks, t, i).Some?
    ensures Instance(toks, Consumed(toks, t, i))
    ensures At(t, i, Concat(Consumed(toks, t, i)))
    ensures MatchesAs(toks, t, i, Consumed(toks, t, i))
    decreases |toks|
  {
    if toks != [] {
      var j := Step(toks[0], t, i).value;
      MatchTokensSound(toks[1..], t, j);
      var ps := Consumed(toks[1..], t, j);
      assert Consumed(toks, t, i) == [t[i..j]] + ps;
      SoundStepInstance(toks, t, i, j, ps);
      SoundStepMatch(toks, t, i, j, ps, MatchTokens(toks[1..], t, j).value);
    }
  }

  /** The inductive step of soundness: the first token's text, then an
      instance of the rest. */
  lemma SoundStepInstance(toks: seq<Token>, t: string, i: nat, j: nat, ps: seq<string>)
    requires toks != [] && i <= |t| && Step(toks[0], t, i) == Some(j)
    requires Instance(toks[1..], ps) && At(t, j, Concat(ps))
    ensures Instance(toks, [t[i..j]] + ps) && At(t, i, Concat([t[i..j]] + ps))
    ensures Concat([t[i..j]] + ps) == t[i..j] + Concat(ps)
  {
    StepSound(toks[0], t, i);
    ConsInstance(toks, t[i..j], ps);
    AtConcat(t, i, t[i..j], Concat(ps));
  }

  lemma SoundStepMatch(toks: seq<Token>, t: string, i: nat, j: nat, ps: seq<string>, m: Matched)
    requires toks != [] && i <= j <= |t| && Step(toks[0], t, i) == Some(j) && |toks[1..]| == |ps|
    requires MatchTokens(toks[1..], t, j) == Some(m)
    requires MatchesAs(toks[1..], t, j, ps)
    ensures MatchesAs(toks, t, i, [t[i..j]] + ps)
  {
    var p := [t[i..j]] + ps;
    MatchTokensUnfold(toks, t, i, j, m);
    CapturesUnfold(toks, p);
    assert p[0] == t[i..j] && p[1..] == ps;
    assert Concat(p) == t[i..j] + Concat(ps);
    assert Captures(toks, p) == (if toks[0].Group? then [t[i..j]] else []) + m.captures;
    assert i + |Concat(p)| == m.end;
  }

  // ---------------------------------------------------------------------
  // The parser's two patterns
  // ---------------------------------------------------------------------

  /** define\(\s*['"]([^'"]+)['"]\s*,\s*['"]([^'"]+)['"]\s*\) */
  const ConstantTokens: seq<Token> := [
    Lit("define("), Many(SpaceClass), One(QuoteClass), Group(NonQuoteClass), One(QuoteClass),
    Many(SpaceClass), Lit(","), Many(SpaceClass), One(QuoteClass), Group(NonQuoteClass),
    One(QuoteClass), Many(SpaceClass), Lit(")")]

  /** \$(\w+)\s*=\s*['"]([^'"]+)['"]\s*; */
  const VarTokens: seq<Token> := [
    Lit("$"), Group(WordClass), Many(SpaceClass), Lit("="), Many(SpaceClass), One(QuoteClass),
    Group(NonQuoteClass), One(QuoteClass), Many(SpaceClass), Lit(";")]

  datatype Pattern = ConstantPattern | VarPattern

  function Tokens(p: Pattern): seq<Token>
  {
    match p
    case ConstantPattern => ConstantTokens
    case VarPattern => VarTokens
  }

  /** The character every match of the pattern starts with. */
  function Lead(p: Pattern): char
  {
    match p
    case ConstantPattern => 'd'
    case VarPattern => '$'
  }

  lemma ClassesDisjoint()
    ensures Disjoint(SpaceClass, QuoteClass) && Disjoint(QuoteClass, SpaceClass)
    ensures Disjoint(SpaceClass, WordClass) && Disjoint(QuoteClass, NonQuoteClass)
    ensures Disjoint(QuoteClass, WordClass)
  {
  }

  /** Neither pattern needs backtracking. */
  lemma ConstantUnambiguous()
    ensures Unambiguous(ConstantTokens)
  {
    ClassesDisjoint();
    var ts := ConstantTokens;
    forall k | 0 <= k < |ts| ensures SafeAt(ts, k) {
      if k == 1 || k == 5 || k == 7 || k == 11 || k == 3 || k == 9 {
        GuardedNext(ts[k].cls, ts, k + 1);
      }
    }
    UnambiguousAll(ts);
  }

  lemma VarUnambiguous()
    ensures Unambiguous(VarTokens)
  {
    ClassesDisjoint();
    var ts := VarTokens;
    forall k | 0 <= k < |ts| ensures SafeAt(ts, k) {
      if k == 1 {
        GuardedNext(WordClass, ts, 3);
        GuardedMany(WordClass, ts, 2);
      } else if k == 2 || k == 4 || k == 6 || k == 8 {
        GuardedNext(ts[k].cls, ts, k + 1);
      }
    }
    UnambiguousAll(ts);
  }

  /** A repetition at `k` is guarded by the tokens after it. */
  predicate SafeAt(ts: seq<Token>, k: nat)
    requires k < |ts|
  {
    (ts[k].Many? || ts[k].Group?) ==> Guarded(ts[k].cls, ts[k + 1..])
  }

  lemma {:induction false} UnambiguousAll(ts: seq<Token>)
    requires forall k :: 0 <= k < |ts| ==> SafeAt(ts, k)
    ensures Unambiguous(ts)
    decreases |ts|
  {
    if ts != [] {
      assert SafeAt(ts, 0);
      var rest := ts[1..];
      forall k | 0 <= k < |rest| ensures SafeAt(rest, k) {
        assert SafeAt(ts, k + 1);
        assert rest[k] == ts[k + 1] && rest[k + 1..] == ts[k + 2..];
      }
      UnambiguousAll(rest);
    }
  }

  /** A suffix starting with a token that cannot begin a run of `cls`
      guards `cls`. */
  lemma GuardedNext(cls: CharClass, ts: seq<Token>, k: nat)
    requires k < |ts| && !ts[k].Many?
    requires ts[k].Lit? ==> |ts[k].text| > 0 && !In(cls, ts[k].text[0])
    requires !ts[k].Lit? ==> Disjoint(ts[k].cls, cls)
    ensures Guarded(cls, ts[k..])
  {
  }

  /** A repetition disjoint from `cls` passes the guard on to what follows. */
  lemma GuardedMany(cls: CharClass, ts: seq<Token>, k: nat)
    requires k < |ts| && ts[k].Many? && Disjoint(ts[k].cls, cls) && Guarded(cls, ts[k + 1..])
    ensures Guarded(cls, ts[k..])
  {
    assert ts[k..][1..] == ts[k + 1..];
  }

  lemma ConstantGroups()
    ensures Groups(ConstantTokens) == [NonQuoteClass, NonQuoteClass]
  {
    GroupPositions();
    GroupsTwo(ConstantTokens, 3, 9);
  }

  lemma VarGroups()
    ensures Groups(VarTokens) == [WordClass, NonQuoteClass]
  {
    GroupPositions();
    GroupsTwo(VarTokens, 1, 6);
  }

  lemma {:induction false} GroupsNone(ts: seq<Token>)
    requires forall k :: 0 <= k < |ts| ==> !ts[k].Group?
    ensures Groups(ts) == []
    decreases |ts|
  {
    if ts != [] {
      assert !ts[0].Group?;
      GroupsNone(ts[1..]);
    }
  }

  /** When the first group is token `g`, the groups are its class and then
      those of the tokens after it. */
  lemma {:induction false} GroupsAt(ts: seq<Token>, g: nat)
    requires g < |ts| && ts[g].Group? && forall k :: 0 <= k < g ==> !ts[k].Group?
    ensures Groups(ts) == [ts[g].cls] + Groups(ts[g + 1..])
    decreases g
  {
    if g > 0 {
      assert !ts[0].Group?;
      assert ts[1..][g..] == ts[g + 1..];
      GroupsAt(ts[1..], g - 1);
    }
  }

  lemma GroupsOne(ts: seq<Token>, h: nat)
    requires h < |ts| && ts[h].Group? && forall k :: 0 <= k < |ts| && k != h ==> !ts[k].Group?
    ensures Groups(ts) == [ts[h].cls]
  {
    GroupsAt(ts, h);
    var rest := ts[h + 1..];
    forall k | 0 <= k < |rest| ensures !rest[k].Group? {
      assert rest[k] == ts[h + 1 + k];
    }
    GroupsNone(rest);
  }

  /** Tokens with exactly two groups, at positions `g1 < g2`, have those
      two groups' classes. */
  lemma GroupsTwo(ts: seq<Token>, g1: nat, g2: nat)
    requires g1 < g2 < |ts| && ts[g1].Group? && ts[g2].Group?
    requires forall k :: 0 <= k < |ts| && k != g1 && k != g2 ==> !ts[k].Group?
    ensures Groups(ts) == [ts[g1].cls, ts[g2].cls]
  {
    GroupsAt(ts, g1);
    var rest, h := ts[g1 + 1..], g2 - g1 - 1;
    assert rest[h] == ts[g2];
    forall k | 0 <= k < |rest| && k != h ensures !rest[k].Group? {
      assert rest[k] == ts[g1 + 1 + k];
    }
    GroupsOne(rest, h);
  }

  /** The shape of the two patterns: two groups each, the first a name and
      the second a value; each starts with its lead character; neither
      needs backtracking. */
  lemma PatternShapes(p: Pattern)
    ensures Groups(Tokens(p)) ==
      if p == VarPattern then [WordClass, NonQuoteClass] else [NonQuoteClass, NonQuoteClass]
    ensures Tokens(p)[0].Lit? && |Tokens(p)[0].text| > 0 && Tokens(p)[0].text[0] == Lead(p)
    ensures Unambiguous(Tokens(p))
  {
    match p
    case ConstantPattern => ConstantGroups(); ConstantUnambiguous();
    case VarPattern => VarGroups(); VarUnambiguous();
  }

  /** A match: the name, the value and the position after the match. */
  datatype Match = Match(name: string, value: string, end: nat)

  /** The captures of a match of either pattern: a name and a value, both
      non-empty and free of quotes, the name of a variable a run of word
      characters. */
  lemma MatchCaptures(p: Pattern, t: string, i: nat)
    requires i <= |t| && MatchTokens(Tokens(p), t, i).Some?
    ensures var caps := MatchTokens(Tokens(p), t, i).value.captures;
      && |caps| == 2
      && |caps[0]| > 0 && QuoteFree(caps[0]) && |caps[1]| > 0 && QuoteFree(caps[1])
      && (p == VarPattern ==> AllIn(WordClass, caps[0]))
  {
    var caps := MatchTokens(Tokens(p), t, i).value.captures;
    PatternShapes(p);
    MatchTokensCaptures(Tokens(p), t, i);
    var gs := Groups(Tokens(p));
    assert |caps[0]| > 0 && AllIn(gs[0], caps[0]);
    assert |caps[1]| > 0 && AllIn(gs[1], caps[1]);
  }

  /** A match starts with the pattern's lead character and is not empty. */
  lemma MatchLead(p: Pattern, t: string, i: nat)
    requires i <= |t| && MatchTokens(Tokens(p), t, i).Some?
    ensures i < |t| && t[i] == Lead(p) && i < MatchTokens(Tokens(p), t, i).value.end
  {
    PatternLead(p);
    MatchFirstLit(Tokens(p), t, i, Lead(p));
  }

  lemma PatternLead(p: Pattern)
    ensures Tokens(p) != [] && Tokens(p)[0].Lit?
    ensures |Tokens(p)[0].text| > 0 && Tokens(p)[0].text[0] == Lead(p)
  {
  }

  /** A match of tokens that begin with a literal starts with the literal's
      first character and consumes at least that character. */
  lemma MatchFirstLit(toks: seq<Token>, t: string, i: nat, c: char)
    requires toks != [] && toks[0].Lit? && |toks[0].text| > 0 && toks[0].text[0] == c
    requires i <= |t| && MatchTokens(toks, t, i).Some?
    ensures i < |t| && t[i] == c && i < MatchTokens(toks, t, i).value.end
  {
    var s := toks[0].text;
    assert At(t, i, s);
    assert t[i..i + |s|][0] == t[i];
  }

  /** The pattern tried at position `i`. */
  function MatchAt(p: Pattern, t: string, i: nat): (r: Option<Match>)
    requires i <= |t|
    ensures r.Some? ==> i < r.value.end <= |t| && t[i] == Lead(p)
    ensures r.Some? ==> |r.value.name| > 0 && QuoteFree(r.value.name)
    ensures r.Some? ==> |r.value.value| > 0 && QuoteFree(r.value.value)
    ensures r.Some? && p == VarPattern ==> AllIn(WordClass, r.value.name)
  {
    match MatchTokens(Tokens(p), t, i)
    case None => None
    case Some(m) =>
      MatchCaptures(p, t, i);
      MatchLead(p, t, i);
      Some(Match(m.captures[0], m.captures[1], m.end))
  }

  /** An instance of the pattern at `i` is what the pattern matches there:
      the unambiguous patterns have one way to match. */
  lemma MatchAtInstance(p: Pattern, pieces: seq<string>, name: string, value: string, t: string, i: nat, end: nat)
    requires Instance(Tokens(p), pieces) && Captures(Tokens(p), pieces) == [name, value]
    requires At(t, i, Concat(pieces)) && end == i + |Concat(pieces)|
    ensures MatchAt(p, t, i) == Some(Match(name, value, end))
  {
    PatternUnambiguous(p);
    MatchTokensOf(Tokens(p), pieces, [name, value], t, i, end);
  }

  lemma MatchTokensOf(toks: seq<Token>, pieces: seq<string>, caps: seq<string>, t: string, i: nat, end: nat)
    requires Unambiguous(toks) && Instance(toks, pieces) && At(t, i, Concat(pieces))
    requires Captures(toks, pieces) == caps && end == i + |Concat(pieces)|
    ensures MatchTokens(toks, t, i) == Some(Matched(caps, end))
  {
    MatchTokensComplete(toks, pieces, t, i);
  }

  lemma PatternUnambiguous(p: Pattern)
    ensures Unambiguous(Tokens(p))
  {
    match p
    case ConstantPattern => ConstantUnambiguous();
    case VarPattern => VarUnambiguous();
  }


  /** MatchAt reports the matcher's two captures and its end. */
  lemma MatchAtTokens(p: Pattern, t: string, i: nat)
    requires i <= |t| && MatchTokens(Tokens(p), t, i).Some?
    ensures var m := MatchTokens(Tokens(p), t, i).value;
      |m.captures| == 2 && MatchAt(p, t, i) == Some(Match(m.captures[0], m.captures[1], m.end))
  {
    MatchCaptures(p, t, i);
  }

  // ---------------------------------------------------------------------
  // String#scan
  // ---------------------------------------------------------------------

  datatype Assignment = Assignment(name: string, value: string)

  /** An assignment the parser can report: both captures non-empty and free
      of quotes. */
  predicate WellFormed(a: Assignment)
  {
    |a.name| > 0 && QuoteFree(a.name) && |a.value| > 0 && QuoteFree(a.value)
  }

  /** The matches of `p` from position `i` on, leftmost first, each search
      resuming where the previous match ended. No pattern matches the empty
      string, so trying the end of the text finds nothing. */
  function ScanFrom(p: Pattern, t: string, i: nat): (r: seq<Assignment>)
    requires i <= |t|
    ensures |r| <= |t| - i
    ensures forall k :: 0 <= k < |r| ==> WellFormed(r[k])
    ensures p == VarPattern ==> forall k :: 0 <= k < |r| ==> AllIn(WordClass, r[k].name)
    decreases |t| - i
  {
    if i == |t| then []
    else
      match MatchAt(p, t, i)
      case Some(m) =>
        var rest := ScanFrom(p, t, m.end);
        FoundWellFormed(p, Assignment(m.name, m.value), rest);
        [Assignment(m.name, m.value)] + rest
      case None => ScanFrom(p, t, i + 1)
  }

  lemma FoundWellFormed(p: Pattern, a: Assignment, rest: seq<Assignment>)
    requires WellFormed(a) && (p == VarPattern ==> AllIn(WordClass, a.name))
    requires forall k :: 0 <= k < |rest| ==> WellFormed(rest[k])
    requires p == VarPattern ==> forall k :: 0 <= k < |rest| ==> AllIn(WordClass, rest[k].name)
    ensures forall k :: 0 <= k < |[a] + rest| ==> WellFormed(([a] + rest)[k])
    ensures p == VarPattern ==> forall k :: 0 <= k < |[a] + rest| ==> AllIn(WordClass, ([a] + rest)[k].name)
  {
  }

  function Scan(p: Pattern, t: string): seq<Assignment>
  {
    ScanFrom(p, t, 0)
  }

  /** Text without the pattern's lead character holds no match. */
  lemma {:induction false} ScanSkip(p: Pattern, t: string, i: nat, j: nat)
    requires i <= j <= |t|
    requires forall k :: i <= k < j ==> t[k] != Lead(p)
    ensures ScanFrom(p, t, i) == ScanFrom(p, t, j)
    decreases j - i
  {
    if i < j {
      assert MatchAt(p, t, i).None?;
      ScanSkip(p, t, i + 1, j);
    }
  }

  /** After text free of the lead character, an instance of the pattern is
      the next assignment scan reports, and the scan goes on after it. */
  lemma ScanFinds(p: Pattern, t: string, i: nat, pieces: seq<string>, name: string, value: string, end: nat)
    requires Instance(Tokens(p), pieces) && Captures(Tokens(p), pieces) == [name, value]
    requires At(t, i, Concat(pieces)) && end == i + |Concat(pieces)|
    requires forall k :: 0 <= k < i ==> t[k] != Lead(p)
    ensures Scan(p, t) == [Assignment(name, value)] + ScanFrom(p, t, end)
  {
    MatchAtInstance(p, pieces, name, value, t, i, end);
    ScanMatch(p, t, i, name, value, end);
  }

  /** A match after text free of the lead character is the first
      assignment scan reports. */
  lemma ScanMatch(p: Pattern, t: string, i: nat, name: string, value: string, end: nat)
    requires i <= |t| && MatchAt(p, t, i) == Some(Match(name, value, end))
    requires forall k :: 0 <= k < i ==> t[k] != Lead(p)
    ensures Scan(p, t) == [Assignment(name, value)] + ScanFrom(p, t, end)
  {
    ScanSkip(p, t, 0, i);
  }

  /** Text free of the lead character yields no assignment. */
  lemma ScanNone(p: Pattern, t: string)
    requires forall k :: 0 <= k < |t| ==> t[k] != Lead(p)
    ensures Scan(p, t) == []
  {
    ScanSkip(p, t, 0, |t|);
  }

  // ---------------------------------------------------------------------
  // Keys
  // ---------------------------------------------------------------------

  /** String#downcase on ASCII letters. */
  function Lower(ch: char): (r: char)
    ensures 'A' <= ch <= 'Z' ==> r as int == ch as int + 32
    ensures !('A' <= ch <= 'Z') ==> r == ch
  {
    if 'A' <= ch <= 'Z' then (ch as int + 32) as char else ch
  }

  function Downcase(s: string): (r: string)
    ensures |r| == |s|
    ensures forall k :: 0 <= k < |s| ==> r[k] == Lower(s[k])
  {
    if s == [] then [] else [Lower(s[0])] + Downcase(s[1..])
  }

  predicate NoUpper(s: string)
  {
    forall k :: 0 <= k < |s| ==> !('A' <= s[k] <= 'Z')
  }

  lemma DowncaseLower(s: string)
    ensures NoUpper(Downcase(s))
    ensures Downcase(Downcase(s)) == Downcase(s)
    ensures NoUpper(s) ==> Downcase(s) == s
  {
  }

  /** Downcasing keeps word characters word characters. */
  lemma DowncaseWord(s: string)
    requires AllIn(WordClass, s)
    ensures AllIn(WordClass, Downcase(s))
  {
  }

  /** The key an assignment is stored under (`c[0].downcase.to_sym`). */
  function Key(a: Assignment): string
  {
    Downcase(a.name)
  }

  // ---------------------------------------------------------------------
  // The configuration hash
  // ---------------------------------------------------------------------

  /** Store assignments in order, a later one overwriting an earlier one
      with the same key. */
  function Store(m: map<string, string>, entries: seq<Assignment>): map<string, string>
  {
    if entries == [] then m
    else
      var last := entries[|entries| - 1];
      Store(m, entries[..|entries| - 1])[Key(last) := last.value]
  }

  /** The value stored under a key is that of its last assignment. */
  lemma {:induction false} StoreLast(m: map<string, string>, entries: seq<Assignment>, k: nat)
    requires k < |entries|
    requires forall l :: k < l < |entries| ==> Key(entries[l]) != Key(entries[k])
    ensures Key(entries[k]) in Store(m, entries)
    ensures Store(m, entries)[Key(entries[k])] == entries[k].value
    decreases |entries|
  {
    var n := |entries| - 1;
    if k < n {
      var init := entries[..n];
      assert init[k] == entries[k];
      forall l | k < l < |init| ensures Key(init[l]) != Key(init[k]) {
        assert init[l] == entries[l];
      }
      StoreLast(m, init, k);
    }
  }

  /** A key no assignment names keeps what it had. */
  lemma {:induction false} StoreOthers(m: map<string, string>, entries: seq<Assignment>, key: string)
    requires forall l :: 0 <= l < |entries| ==> Key(entries[l]) != key
    ensures key in Store(m, entries) <==> key in m
    ensures key in m ==> Store(m, entries)[key] == m[key]
    decreases |entries|
  {
    if entries != [] {
      var init := entries[..|entries| - 1];
      forall l | 0 <= l < |init| ensures Key(init[l]) != key {
        assert init[l] == entries[l];
      }
      StoreOthers(m, init, key);
    }
  }

  /** The stored keys: those of `m` and those assigned. */
  lemma {:induction false} StoreKeys(m: map<string, string>, entries: seq<Assignment>)
    ensures Store(m, entries).Keys == m.Keys + set a | a in entries :: Key(a)
    decreases |entries|
  {
    if entries != [] {
      var init := entries[..|entries| - 1];
      StoreKeys(m, init);
      assert entries == init + [entries[|entries| - 1]];
    }
  }

  /** Storing two runs of assignments is storing them one after the other. */
  lemma {:induction false} StoreConcat(m: map<string, string>, a: seq<Assignment>, b: seq<Assignment>)
    ensures Store(m, a + b) == Store(Store(m, a), b)
    decreases |b|
  {
    if b == [] {
      assert a + b == a;
    } else {
      var ab := a + b;
      assert ab[..|ab| - 1] == a + b[..|b| - 1];
      assert ab[|ab| - 1] == b[|b| - 1];
      StoreConcat(m, a, b[..|b| - 1]);
    }
  }

  // ---------------------------------------------------------------------
  // Files
  // ---------------------------------------------------------------------

  /** The assignments one file contributes, in the order they are stored:
      all its constants, then all its variables. */
  function FileEntries(text: string): (r: seq<Assignment>)
    ensures forall k :: 0 <= k < |r| ==> WellFormed(r[k])
  {
    Scan(ConstantPattern, text) + Scan(VarPattern, text)
  }

  /** Storing a file is storing its constants, then its variables. */
  lemma FileConstantsThenVariables(m: map<string, string>, text: string)
    ensures Store(m, FileEntries(text))
         == Store(Store(m, Scan(ConstantPattern, text)), Scan(VarPattern, text))
  {
    StoreConcat(m, Scan(ConstantPattern, text), Scan(VarPattern, text));
  }

  /** A variable assignment wins over any constant of the same key in the
      same file: its value is that of the last variable with the key. */
  lemma VariableOverridesConstant(m: map<string, string>, text: string, k: nat)
    requires var vars := Scan(VarPattern, text);
      k < |vars| && forall l :: k < l < |vars| ==> Key(vars[l]) != Key(vars[k])
    ensures var v := Scan(VarPattern, text)[k];
      Key(v) in Store(m, FileEntries(text)) && Store(m, FileEntries(text))[Key(v)] == v.value
  {
    var consts, vars := Scan(ConstantPattern, text), Scan(VarPattern, text);
    var all := FileEntries(text);
    var n := |consts| + k;
    assert all[n] == vars[k];
    forall l | n < l < |all| ensures Key(all[l]) != Key(all[n]) {
      assert all[l] == vars[l - |consts|];
    }
    StoreLast(m, all, n);
  }

  /** What the file at `path` contributes: nothing when there is none. */
  function FileOf(fs: map<string, string>, path: string): (r: seq<Assignment>)
    ensures forall k :: 0 <= k < |r| ==> WellFormed(r[k])
  {
    if path in fs then FileEntries(fs[path]) else []
  }

  /** What the files at `paths` contribute, in order. */
  function Entries(fs: map<string, string>, paths: seq<string>): (r: seq<Assignment>)
    ensures forall k :: 0 <= k < |r| ==> WellFormed(r[k])
  {
    if paths == [] then []
    else Entries(fs, paths[..|paths| - 1]) + FileOf(fs, paths[|paths| - 1])
  }

  /** The configuration map the parser builds from the files at `paths`,
      read in order; `fs` maps each existing file to its text. */
  function ParseFiles(fs: map<string, string>, paths: seq<string>): map<string, string>
  {
    if paths == [] then map[]
    else
      var last := paths[|paths| - 1];
      var m := ParseFiles(fs, paths[..|paths| - 1]);
      if last in fs then Store(m, FileEntries(fs[last])) else m
  }

  /** The map is all the files' assignments stored in order. */
  lemma {:induction false} ParseFilesEntries(fs: map<string, string>, paths: seq<string>)
    ensures ParseFiles(fs, paths) == Store(map[], Entries(fs, paths))
    decreases |paths|
  {
    if paths != [] {
      var init, last := paths[..|paths| - 1], paths[|paths| - 1];
      ParseFilesEntries(fs, init);
      StoreConcat(map[], Entries(fs, init), FileOf(fs, last));
    }
  }

  lemma EntriesSnoc(fs: map<string, string>, s: seq<string>, x: string)
    ensures Entries(fs, s + [x]) == Entries(fs, s) + FileOf(fs, x)
  {
    assert (s + [x])[..|s|] == s;
  }

  lemma {:induction false} EntriesConcat(fs: map<string, string>, a: seq<string>, b: seq<string>)
    ensures Entries(fs, a + b) == Entries(fs, a) + Entries(fs, b)
    decreases |b|
  {
    if b == [] {
      assert a + b == a;
    } else {
      var init, last := b[..|b| - 1], b[|b| - 1];
      EntriesLast(fs, a, b);
      EntriesConcat(fs, a, init);
      AppendAssoc(Entries(fs, a), Entries(fs, init), FileOf(fs, last));
    }
  }

  /** Taking the last file off `b`, alone and after `a`. */
  lemma EntriesLast(fs: map<string, string>, a: seq<string>, b: seq<string>)
    requires b != []
    ensures Entries(fs, a + b) == Entries(fs, a + b[..|b| - 1]) + FileOf(fs, b[|b| - 1])
    ensures Entries(fs, b) == Entries(fs, b[..|b| - 1]) + FileOf(fs, b[|b| - 1])
  {
    var init, last := b[..|b| - 1], b[|b| - 1];
    assert b == init + [last];
    assert a + b == (a + init) + [last];
    EntriesSnoc(fs, a + init, last);
    EntriesSnoc(fs, init, last);
  }

  lemma AppendAssoc<T>(x: seq<T>, y: seq<T>, z: seq<T>)
    ensures (x + y) + z == x + (y + z)
  {
  }

  /** `next if not File.exist?(f)`: a missing file changes nothing. */
  lemma MissingFileIgnored(fs: map<string, string>, a: seq<string>, x: string, b: seq<string>)
    requires x !in fs
    ensures ParseFiles(fs, a + [x] + b) == ParseFiles(fs, a + b)
  {
    EntriesConcat(fs, a + [x], b);
    EntriesSnoc(fs, a, x);
    assert FileOf(fs, x) == [];
    assert Entries(fs, a + [x]) == Entries(fs, a);
    EntriesConcat(fs, a, b);
    ParseFilesEntries(fs, a + [x] + b);
    ParseFilesEntries(fs, a + b);
  }

  /** The keys are exactly the downcased names assigned in the files. */
  lemma ParseFilesKeys(fs: map<string, string>, paths: seq<string>)
    ensures ParseFiles(fs, paths).Keys == set a | a in Entries(fs, paths) :: Key(a)
  {
    ParseFilesEntries(fs, paths);
    StoreKeys(map[], Entries(fs, paths));
  }

  /** The value stored under a key is that of its last assignment in the
      last file that assigns it. */
  lemma ParseFilesLast(fs: map<string, string>, paths: seq<string>, k: nat)
    requires var all := Entries(fs, paths);
      k < |all| && forall l :: k < l < |all| ==> Key(all[l]) != Key(all[k])
    ensures var a := Entries(fs, paths)[k];
      Key(a) in ParseFiles(fs, paths) && ParseFiles(fs, paths)[Key(a)] == a.value
  {
    ParseFilesEntries(fs, paths);
    StoreLast(map[], Entries(fs, paths), k);
  }

  /** Every key is lower case and every value a non-empty text without
      quotes. */
  predicate Clean(m: map<string, string>)
  {
    forall key :: key in m ==> NoUpper(key) && |m[key]| > 0 && QuoteFree(m[key])
  }

  lemma {:induction false} StoreClean(m: map<string, string>, entries: seq<Assignment>)
    requires Clean(m) && forall k :: 0 <= k < |entries| ==> WellFormed(entries[k])
    ensures Clean(Store(m, entries))
    decreases |entries|
  {
    if entries != [] {
      var init, last := entries[..|entries| - 1], entries[|entries| - 1];
      forall k | 0 <= k < |init| ensures WellFormed(init[k]) {
        assert init[k] == entries[k];
      }
      StoreClean(m, init);
      DowncaseLower(last.name);
    }
  }

  lemma ParseFilesClean(fs: map<string, string>, paths: seq<string>)
    ensures Clean(ParseFiles(fs, paths))
  {
    ParseFilesEntries(fs, paths);
    StoreClean(map[], Entries(fs, paths));
  }

  // ---------------------------------------------------------------------
  // Round trips
  // ---------------------------------------------------------------------

  lemma AtPrefix(a: string, b: string)
    ensures At(a + b, 0, a)
  {
    assert (a + b)[0..|a|] == a;
  }

  /** Tokens without a group capture nothing. */
  lemma {:induction false} CapturesNone(toks: seq<Token>, pieces: seq<string>)
    requires |toks| == |pieces| && forall k :: 0 <= k < |toks| ==> !toks[k].Group?
    ensures Captures(toks, pieces) == []
    decreases |toks|
  {
    if toks != [] {
      assert !toks[0].Group?;
      CapturesNone(toks[1..], pieces[1..]);
    }
  }

  /** When the first group is token `g`, the captures are its piece and
      then those of the tokens after it. */
  lemma {:induction false} CapturesAt(toks: seq<Token>, pieces: seq<string>, g: nat)
    requires |toks| == |pieces| && g < |toks| && toks[g].Group?
    requires forall k :: 0 <= k < g ==> !toks[k].Group?
    ensures Captures(toks, pieces) == [pieces[g]] + Captures(toks[g + 1..], pieces[g + 1..])
    decreases g
  {
    if g > 0 {
      assert !toks[0].Group?;
      assert toks[1..][g..] == toks[g + 1..] && pieces[1..][g..] == pieces[g + 1..];
      CapturesAt(toks[1..], pieces[1..], g - 1);
    }
  }

  /** A pattern with exactly two groups, at positions `g1 < g2`, captures
      the pieces at those positions. */
  lemma CapturesTwo(toks: seq<Token>, pieces: seq<string>, g1: nat, g2: nat)
    requires |toks| == |pieces| && g1 < g2 < |toks|
    requires toks[g1].Group? && toks[g2].Group?
    requires forall k :: 0 <= k < |toks| && k != g1 && k != g2 ==> !toks[k].Group?
    ensures Captures(toks, pieces) == [pieces[g1], pieces[g2]]
  {
    CapturesAt(toks, pieces, g1);
    var t1, p1 := toks[g1 + 1..], pieces[g1 + 1..];
    var h := g2 - g1 - 1;
    assert t1[h] == toks[g2] && p1[h] == pieces[g2];
    forall k | 0 <= k < |t1| && k != h ensures !t1[k].Group? {
      assert t1[k] == toks[g1 + 1 + k];
    }
    CapturesOne(t1, p1, h);
  }

  /** A pattern whose only group is token `h` captures the piece at `h`. */
  lemma CapturesOne(toks: seq<Token>, pieces: seq<string>, h: nat)
    requires |toks| == |pieces| && h < |toks| && toks[h].Group?
    requires forall k :: 0 <= k < |toks| && k != h ==> !toks[k].Group?
    ensures Captures(toks, pieces) == [pieces[h]]
  {
    CapturesAt(toks, pieces, h);
    var t2, p2 := toks[h + 1..], pieces[h + 1..];
    forall k | 0 <= k < |t2| ensures !t2[k].Group? {
      assert t2[k] == toks[h + 1 + k];
    }
    CapturesNone(t2, p2);
  }

  /** The constant pattern's groups are its tokens 3 and 9; the variable
      pattern's its tokens 1 and 6. */
  lemma GroupPositions()
    ensures ConstantTokens[3].Group? && ConstantTokens[9].Group?
    ensures forall k :: 0 <= k < |ConstantTokens| && k != 3 && k != 9 ==> !ConstantTokens[k].Group?
    ensures VarTokens[1].Group? && VarTokens[6].Group?
    ensures forall k :: 0 <= k < |VarTokens| && k != 1 && k != 6 ==> !VarTokens[k].Group?
  {
  }

  /** The quote characters around a name and a value: each may be `'` or
      `"`, independently of the others. */
  datatype Quotes = Quotes(nameOpen: char, nameClose: char, valueOpen: char, valueClose: char)
  {
    predicate Valid()
    {
      IsQuote(nameOpen) && IsQuote(nameClose) && IsQuote(valueOpen) && IsQuote(valueClose)
    }
  }

  const Single := Quotes('\'', '\'', '\'', '\'')
  const Double := Quotes('"', '"', '"', '"')

  /** The pieces of `define(<q>name<q>, <q>value<q>)`, one per token. */
  function DefinePieces(name: string, value: string, q: Quotes): seq<string>
  {
    ["define(", "", [q.nameOpen], name, [q.nameClose], "", ",", " ", [q.valueOpen], value, [q.valueClose], "", ")"]
  }

  /** `define('<name>', '<value>');` */
  function DefineStatement(name: string, value: string): string
  {
    Concat(DefinePieces(name, value, Single)) + ";"
  }

  /** The pieces of `$<name> = <q>value<q>;`, one per token. */
  function AssignPieces(name: string, value: string, q: Quotes): seq<string>
  {
    ["$", name, " ", "=", " ", [q.valueOpen], value, [q.valueClose], "", ";"]
  }

  /** `$<name> = "<value>";` */
  function AssignStatement(name: string, value: string): string
  {
    Concat(AssignPieces(name, value, Double))
  }

  lemma DefineInstance(name: string, value: string, q: Quotes)
    requires WellFormed(Assignment(name, value)) && q.Valid()
    ensures Instance(ConstantTokens, DefinePieces(name, value, q))
  {
    var toks, pieces := ConstantTokens, DefinePieces(name, value, q);
    forall k | 0 <= k < |toks| ensures Fits(toks[k], pieces[k]) {
      if k == 3 {
        assert toks[k] == Group(NonQuoteClass) && pieces[k] == name;
      } else if k == 9 {
        assert toks[k] == Group(NonQuoteClass) && pieces[k] == value;
      }
    }
  }

  lemma DefineShape(name: string, value: string, q: Quotes)
    requires WellFormed(Assignment(name, value)) && q.Valid()
    ensures Instance(ConstantTokens, DefinePieces(name, value, q))
    ensures Captures(ConstantTokens, DefinePieces(name, value, q)) == [name, value]
  {
    DefineInstance(name, value, q);
    GroupPositions();
    CapturesTwo(ConstantTokens, DefinePieces(name, value, q), 3, 9);
  }

  lemma AssignInstance(name: string, value: string, q: Quotes)
    requires WellFormed(Assignment(name, value)) && AllIn(WordClass, name) && q.Valid()
    ensures Instance(VarTokens, AssignPieces(name, value, q))
  {
    var toks, pieces := VarTokens, AssignPieces(name, value, q);
    forall k | 0 <= k < |toks| ensures Fits(toks[k], pieces[k]) {
      if k == 1 {
        assert toks[k] == Group(WordClass) && pieces[k] == name;
      } else if k == 6 {
        assert toks[k] == Group(NonQuoteClass) && pieces[k] == value;
      }
    }
  }

  lemma AssignShape(name: string, value: string, q: Quotes)
    requires WellFormed(Assignment(name, value)) && AllIn(WordClass, name) && q.Valid()
    ensures Instance(VarTokens, AssignPieces(name, value, q))
    ensures Captures(VarTokens, AssignPieces(name, value, q)) == [name, value]
  {
    AssignInstance(name, value, q);
    GroupPositions();
    CapturesTwo(VarTokens, AssignPieces(name, value, q), 1, 6);
  }

  /** A text that is one instance of a pattern scans to that instance's
      captures. */
  lemma ScanInstance(p: Pattern, pieces: seq<string>, name: string, value: string)
    requires Instance(Tokens(p), pieces) && Captures(Tokens(p), pieces) == [name, value]
    ensures Scan(p, Concat(pieces)) == [Assignment(name, value)]
  {
    var t := Concat(pieces);
    assert At(t, 0, t) by {
      assert t[0..|t|] == t;
    }
    ScanFinds(p, t, 0, pieces, name, value, |t|);
  }

  /** Scanning a single define statement gives back its name and value. */
  lemma DefineRoundTrip(name: string, value: string)
    requires WellFormed(Assignment(name, value))
    ensures Scan(ConstantPattern, DefineStatement(name, value)) == [Assignment(name, value)]
  {
    var pieces := DefinePieces(name, value, Single);
    var call := Concat(pieces);
    var t := call + ";";
    DefineShape(name, value, Single);
    AtPrefix(call, ";");
    ScanFinds(ConstantPattern, t, 0, pieces, name, value, |call|);
    assert t[|call|] == ';';
    ScanSkip(ConstantPattern, t, |call|, |t|);
  }

  /** Scanning a single variable assignment gives back its name and value. */
  lemma AssignRoundTrip(name: string, value: string)
    requires WellFormed(Assignment(name, value)) && AllIn(WordClass, name)
    ensures Scan(VarPattern, AssignStatement(name, value)) == [Assignment(name, value)]
  {
    AssignShape(name, value, Double);
    ScanInstance(VarPattern, AssignPieces(name, value, Double), name, value);
  }

  /** The quote before a name or value and the quote after it need not be
      the same character: `define("DB_NAME', 'x")` and `$a = 'x";` match. */
  lemma QuotesNeedNotMatch(name: string, value: string, q: Quotes)
    requires WellFormed(Assignment(name, value)) && q.Valid()
    ensures Scan(ConstantPattern, Concat(DefinePieces(name, value, q))) == [Assignment(name, value)]
    ensures AllIn(WordClass, name) ==>
      Scan(VarPattern, Concat(AssignPieces(name, value, q))) == [Assignment(name, value)]
  {
    DefineShape(name, value, q);
    ScanInstance(ConstantPattern, DefinePieces(name, value, q), name, value);
    if AllIn(WordClass, name) {
      AssignShape(name, value, q);
      ScanInstance(VarPattern, AssignPieces(name, value, q), name, value);
    }
  }

  // ---------------------------------------------------------------------
  // Later files win
  // ---------------------------------------------------------------------

  /** Storing `entries` over `m`: a key the entries assign gets what they
      alone would store; any other key keeps what `m` had. */
  lemma {:induction false} StoreOver(m: map<string, string>, entries: seq<Assignment>, key: string)
    ensures key in Store(map[], entries) ==>
      key in Store(m, entries) && Store(m, entries)[key] == Store(map[], entries)[key]
    ensures key !in Store(map[], entries) ==>
      (key in Store(m, entries) <==> key in m) && (key in m ==> Store(m, entries)[key] == m[key])
    decreases |entries|
  {
    if entries != [] {
      StoreOver(m, entries[..|entries| - 1], key);
    }
  }

  /** Files are read in order into one Hash: on a key that both `a` and `b`
      assign, the later files `b` win; a key only the earlier files assign
      keeps their value. */
  lemma LaterFileWins(fs: map<string, string>, a: seq<string>, b: seq<string>, key: string)
    ensures key in ParseFiles(fs, b) ==>
      key in ParseFiles(fs, a + b) && ParseFiles(fs, a + b)[key] == ParseFiles(fs, b)[key]
    ensures key !in ParseFiles(fs, b) ==>
      (key in ParseFiles(fs, a + b) <==> key in ParseFiles(fs, a))
      && (key in ParseFiles(fs, a) ==> ParseFiles(fs, a + b)[key] == ParseFiles(fs, a)[key])
  {
    ParseFilesEntries(fs, a + b);
    ParseFilesEntries(fs, a);
    ParseFilesEntries(fs, b);
    EntriesConcat(fs, a, b);
    StoreConcat(map[], Entries(fs, a), Entries(fs, b));
    StoreOver(ParseFiles(fs, a), Entries(fs, b), key);
  }

  // ---------------------------------------------------------------------
  // Quote characters
  // ---------------------------------------------------------------------

  /** The number of quote characters in `s`. */
  function QuoteCount(s: string): nat
  {
    if s == [] then 0 else (if IsQuote(s[0]) then 1 else 0) + QuoteCount(s[1..])
  }

  lemma {:induction false} QuoteCountConcat(a: string, b: string)
    ensures QuoteCount(a + b) == QuoteCount(a) + QuoteCount(b)
    decreases |a|
  {
    if a == [] {
      assert a + b == b;
    } else {
      assert (a + b)[1..] == a[1..] + b;
      QuoteCountConcat(a[1..], b);
    }
  }

  lemma {:induction false} QuoteFreeCount(s: string)
    requires QuoteFree(s)
    ensures QuoteCount(s) == 0
    decreases |s|
  {
    if s != [] {
      assert In(NonQuoteClass, s[0]);
      assert forall k :: 0 <= k < |s[1..]| ==> s[1..][k] == s[k + 1];
      QuoteFreeCount(s[1..]);
    }
  }

  lemma OneQuote(p: string)
    requires |p| == 1 && IsQuote(p[0])
    ensures QuoteCount(p) == 1
  {
    assert p[1..] == [];
  }

  /** The pieces from `j` on: piece `j`'s quotes and those of the rest. */
  lemma QuotesFrom(pieces: seq<string>, j: nat)
    requires j < |pieces|
    ensures QuoteCount(Concat(pieces[j..])) == QuoteCount(pieces[j]) + QuoteCount(Concat(pieces[j + 1..]))
  {
    assert pieces[j..][1..] == pieces[j + 1..];
    QuoteCountConcat(pieces[j], Concat(pieces[j + 1..]));
  }

  /** Dropping pieces from the front never adds quotes. */
  lemma {:induction false} QuotesFromMono(pieces: seq<string>, j: nat, k: nat)
    requires j <= k <= |pieces|
    ensures QuoteCount(Concat(pieces[k..])) <= QuoteCount(Concat(pieces[j..]))
    decreases k - j
  {
    if j < k {
      QuotesFrom(pieces, j);
      QuotesFromMono(pieces, j + 1, k);
    }
  }

  /** A quote token matched at piece `j` adds one quote to the pieces from `j` on. */
  lemma QuoteAt(pieces: seq<string>, j: nat)
    requires j < |pieces| && |pieces[j]| == 1 && IsQuote(pieces[j][0])
    ensures QuoteCount(Concat(pieces[j..])) == 1 + QuoteCount(Concat(pieces[j + 1..]))
  {
    OneQuote(pieces[j]);
    QuotesFrom(pieces, j);
  }

  /** Text found at `i` has no more quotes than the text from `i` on. */
  lemma QuotesAt(t: string, i: nat, s: string)
    requires At(t, i, s)
    ensures QuoteCount(s) <= QuoteCount(t[i..])
  {
    assert t[i..] == s + t[i + |s|..];
    QuoteCountConcat(s, t[i + |s|..]);
  }

  /** Every match of the constant pattern holds four quote characters. */
  lemma ConstantInstanceQuotes(pieces: seq<string>)
    requires Instance(ConstantTokens, pieces)
    ensures QuoteCount(Concat(pieces)) >= 4
  {
    assert Fits(ConstantTokens[2], pieces[2]) && Fits(ConstantTokens[4], pieces[4]);
    assert Fits(ConstantTokens[8], pieces[8]) && Fits(ConstantTokens[10], pieces[10]);
    assert pieces[0..] == pieces;
    QuotesFromMono(pieces, 0, 2);
    QuoteAt(pieces, 2);
    QuotesFromMono(pieces, 3, 4);
    QuoteAt(pieces, 4);
    QuotesFromMono(pieces, 5, 8);
    QuoteAt(pieces, 8);
    QuotesFromMono(pieces, 9, 10);
    QuoteAt(pieces, 10);
  }

  /** No match of the constant pattern starts where fewer than four quotes remain. */
  lemma ConstantMatchQuotes(t: string, i: nat)
    requires i <= |t| && QuoteCount(t[i..]) < 4
    ensures MatchAt(ConstantPattern, t, i).None?
  {
    if MatchTokens(ConstantTokens, t, i).Some? {
      MatchTokensSound(ConstantTokens, t, i);
      ConstantInstanceQuotes(Consumed(ConstantTokens, t, i));
      QuotesAt(t, i, Concat(Consumed(ConstantTokens, t, i)));
      assert false;
    }
  }

  /** Text with fewer than four quote characters from `i` on yields no constant. */
  lemma {:induction false} ConstantScanQuotes(t: string, i: nat)
    requires i <= |t| && QuoteCount(t[i..]) < 4
    ensures ScanFrom(ConstantPattern, t, i) == []
    decreases |t| - i
  {
    if i < |t| {
      ConstantMatchQuotes(t, i);
      assert t[i..] == [t[i]] + t[i + 1..];
      QuoteCountConcat([t[i]], t[i + 1..]);
      ConstantScanQuotes(t, i + 1);
    }
  }

  /** The pieces from `j` on hold one quote for each of the one-quote pieces
      `a` and `b` they include, when every other piece is quote free. */
  lemma {:induction false} TwoQuotesFrom(pieces: seq<string>, a: nat, b: nat, j: nat)
    requires a < b < |pieces| && j <= |pieces|
    requires |pieces[a]| == 1 && IsQuote(pieces[a][0]) && |pieces[b]| == 1 && IsQuote(pieces[b][0])
    requires forall k :: 0 <= k < |pieces| && k != a && k != b ==> QuoteFree(pieces[k])
    ensures QuoteCount(Concat(pieces[j..])) == (if j <= a then 1 else 0) + (if j <= b then 1 else 0)
    decreases |pieces| - j
  {
    if j < |pieces| {
      TwoQuotesFrom(pieces, a, b, j + 1);
      if j == a || j == b {
        QuoteAt(pieces, j);
      } else {
        QuoteFreeCount(pieces[j]);
        QuotesFrom(pieces, j);
      }
    }
  }

  /** `$<name> = "<value>";` holds exactly its two quote characters. */
  lemma AssignQuotes(name: string, value: string)
    requires QuoteFree(name) && QuoteFree(value)
    ensures QuoteCount(AssignStatement(name, value)) == 2
  {
    var pieces := AssignPieces(name, value, Double);
    assert forall k :: 0 <= k < |pieces| && k != 5 && k != 7 ==> QuoteFree(pieces[k]);
    TwoQuotesFrom(pieces, 5, 7, 0);
    assert pieces[0..] == pieces;
  }

  /** An assignment statement holds no constant definition, whatever its
      name and value: it has two quotes, every definition four. */
  lemma AssignHasNoConstant(name: string, value: string)
    requires QuoteFree(name) && QuoteFree(value)
    ensures Scan(ConstantPattern, AssignStatement(name, value)) == []
  {
    var t := AssignStatement(name, value);
    AssignQuotes(name, value);
    assert t[0..] == t;
    ConstantScanQuotes(t, 0);
  }

  // ---------------------------------------------------------------------
  // A file of one statement
  // ---------------------------------------------------------------------

  /** A file whose scans give one assignment stores one key. */
  lemma SingleEntryFile(fs: map<string, string>, path: string, a: Assignment)
    requires path in fs && FileEntries(fs[path]) == [a]
    ensures ParseFiles(fs, [path]) == map[Key(a) := a.value]
  {
    var entries := FileEntries(fs[path]);
    assert [path][..0] == [];
    assert ParseFiles(fs, [path]) == Store(map[], entries);
    assert entries[..0] == [];
    assert Store(map[], entries) == Store(map[], [])[Key(a) := a.value];
  }

  /** A constant definition followed by text with fewer than four quotes
      is the only constant scan reports. */
  lemma ConstantThenFewQuotes(pieces: seq<string>, name: string, value: string, tail: string)
    requires Instance(ConstantTokens, pieces) && Captures(ConstantTokens, pieces) == [name, value]
    requires QuoteCount(tail) < 4
    ensures Scan(ConstantPattern, Concat(pieces) + tail) == [Assignment(name, value)]
  {
    var call := Concat(pieces);
    var t := call + tail;
    AtPrefix(call, tail);
    ScanFinds(ConstantPattern, t, 0, pieces, name, value, |call|);
    assert t[|call|..] == tail;
    ConstantScanQuotes(t, |call|);
  }

  /** A match after text without the lead character, ending the text, is
      the only one scan reports. */
  lemma ScanLast(p: Pattern, head: string, pieces: seq<string>, name: string, value: string)
    requires Instance(Tokens(p), pieces) && Captures(Tokens(p), pieces) == [name, value]
    requires Lead(p) !in head
    ensures Scan(p, head + Concat(pieces)) == [Assignment(name, value)]
  {
    var found := Concat(pieces);
    var t := head + found;
    assert forall k :: 0 <= k < |head| ==> t[k] == head[k] && head[k] in head;
    assert t[|head|..|t|] == found;
    ScanFinds(p, t, |head|, pieces, name, value, |t|);
  }

  /** A file whose scans give two assignments stores both keys, the second
      last. */
  lemma TwoEntryFile(fs: map<string, string>, path: string, a: Assignment, b: Assignment)
    requires path in fs && FileEntries(fs[path]) == [a, b]
    ensures ParseFiles(fs, [path]) == map[Key(a) := a.value][Key(b) := b.value]
  {
    var entries := FileEntries(fs[path]);
    assert [path][..0] == [];
    assert ParseFiles(fs, [path]) == Store(map[], entries);
    assert entries[..1] == [a] && [a][..0] == [];
    assert Store(map[], entries) == Store(map[], [a])[Key(b) := b.value];
  }
}
