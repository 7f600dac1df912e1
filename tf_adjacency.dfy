/**
 * The line-scanning reader of a transform-tree dump that only recovers the
 * tree's shape. Each line is stripped of surrounding whitespace; a line
 * starting `frame_id:` makes the first quoted name on it the current parent,
 * and a line starting `child_frame_id:` adds its quoted name to the current
 * parent's set of children. Every name seen becomes a key, and each set of
 * children is returned as a list sorted by code points.
 */
module TfAdjacency {
  import opened Wrappers

  /** A line without any `"` has no quoted field; a child line before any frame line has no parent. */
  datatype ParseError = MissingQuote(line: nat) | ChildBeforeFrame(line: nat)

  /** The characters Python's `str.strip()` removes. */
  predicate IsSpace(c: char)
  {
    var n := c as int;
    n == 32 || 9 <= n <= 13 || 28 <= n <= 31 || n == 0x85 || n == 0xA0 || n == 0x1680 ||
    0x2000 <= n <= 0x200A || n == 0x2028 || n == 0x2029 || n == 0x202F || n == 0x205F || n == 0x3000
  }

  function StripLeft(s: string): (r: string)
    ensures |r| <= |s| && r == s[|s| - |r|..]
    ensures r == [] || !IsSpace(r[0])
    ensures forall i :: 0 <= i < |s| - |r| ==> IsSpace(s[i])
  {
    if s != [] && IsSpace(s[0]) then StripLeft(s[1..]) else s
  }

  function StripRight(s: string): (r: string)
    ensures |r| <= |s| && r == s[..|r|]
    ensures r == [] || !IsSpace(r[|r| - 1])
    ensures forall i :: |r| <= i < |s| ==> IsSpace(s[i])
  {
    if s != [] && IsSpace(s[|s| - 1]) then StripRight(s[..|s| - 1]) else s
  }

  /** `line.strip()`: the line without leading and trailing whitespace. */
  function Strip(s: string): string
  {
    StripRight(StripLeft(s))
  }

  predicate StartsWith(s: string, prefix: string)
  {
    |prefix| <= |s| && s[..|prefix|] == prefix
  }

  /**
   * `s.split('"')[1]`: the text after the first `"`, up to the next `"` or
   * the end of s; None when s has no `"`, where the index is out of range.
   */
  function QuotedField(s: string): Option<string>
  {
    if s == [] then None
    else if s[0] == '"' then Some(UpToQuote(s[1..]))
    else QuotedField(s[1..])
  }

  function UpToQuote(s: string): string
  {
    if s == [] || s[0] == '"' then [] else [s[0]] + UpToQuote(s[1..])
  }

  /** What one line contributes, once stripped. */
  datatype LineKind = FrameLine(name: string) | ChildLine(name: string) | Malformed | Other

  function Classify(line: string): LineKind
  {
    var s := Strip(line);
    if StartsWith(s, "frame_id:") then
      match QuotedField(s)
      case None => Malformed
      case Some(n) => FrameLine(n)
    else if StartsWith(s, "child_frame_id:") then
      match QuotedField(s)
      case None => Malformed
      case Some(n) => ChildLine(n)
    else Other
  }

  /** Each line's kind, in order. */
  function Kinds(lines: seq<string>): seq<LineKind>
  {
    seq(|lines|, i requires 0 <= i < |lines| => Classify(lines[i]))
  }

  /** The name of the last frame line, the parent in force after `ks`. */
  function LastParent(ks: seq<LineKind>): Option<string>
  {
    if ks == [] then None
    else match ks[|ks| - 1]
      case FrameLine(n) => Some(n)
      case _ => LastParent(ks[..|ks| - 1])
  }

  /** Every name on a frame or child line. */
  function Links(ks: seq<LineKind>): set<string>
  {
    if ks == [] then {}
    else
      var rest := Links(ks[..|ks| - 1]);
      match ks[|ks| - 1]
      case FrameLine(n) => rest + {n}
      case ChildLine(n) => rest + {n}
      case _ => rest
  }

  /** The names on child lines read while p was the current parent. */
  function ChildSet(ks: seq<LineKind>, p: string): set<string>
  {
    if ks == [] then {}
    else
      var init := ks[..|ks| - 1];
      var rest := ChildSet(init, p);
      match ks[|ks| - 1]
      case ChildLine(n) => if LastParent(init) == Some(p) then rest + {n} else rest
      case _ => rest
  }

  /** The failure line i, of kind k, raises given the kinds before it. */
  function LineError(before: seq<LineKind>, k: LineKind, i: nat): Option<ParseError>
  {
    match k
    case Malformed => Some(MissingQuote(i))
    case ChildLine(_) => if LastParent(before).None? then Some(ChildBeforeFrame(i)) else None
    case _ => None
  }

  /** The failure of the earliest failing line, if any. */
  function FirstError(ks: seq<LineKind>): Option<ParseError>
  {
    if ks == [] then None
    else
      var init := ks[..|ks| - 1];
      if FirstError(init).Some? then FirstError(init)
      else LineError(init, ks[|ks| - 1], |init|)
  }

  /** Python's `<` on strings: code-point lexicographic, a proper prefix first. */
  predicate StrLess(a: string, b: string)
  {
    if a == [] then b != []
    else if b == [] then false
    else if a[0] != b[0] then a[0] < b[0]
    else StrLess(a[1..], b[1..])
  }

  predicate StrictlySorted(s: seq<string>)
  {
    forall i, j :: 0 <= i < j < |s| ==> StrLess(s[i], s[j])
  }

  /** Inserting x into a strictly sorted list at its place (no-op when present). */
  function Insert(s: seq<string>, x: string): seq<string>
  {
    if s == [] then [x]
    else if s[0] == x then s
    else if StrLess(x, s[0]) then [x] + s
    else [s[0]] + Insert(s[1..], x)
  }

  // ---- properties of the helpers ----------------------------------------

  /** Where Strip's result starts in s. */
  function StripStart(s: string): nat
  {
    |s| - |StripLeft(s)|
  }

  /** Strip removes exactly the surrounding whitespace: what is left is an infix whose ends are not whitespace. */
  lemma StripSpec(s: string)
    ensures var r, k := Strip(s), StripStart(s);
            (r == [] || (!IsSpace(r[0]) && !IsSpace(r[|r| - 1]))) &&
            k + |r| <= |s| && r == s[k..k + |r|] &&
            (forall i :: 0 <= i < k ==> IsSpace(s[i])) &&
            (forall i :: k + |r| <= i < |s| ==> IsSpace(s[i]))
  {
    var l := StripLeft(s);
    var r := StripRight(l);
    var k := |s| - |l|;
    StripInfix(s, k, l, r);
    if r != [] {
      assert r[0] == l[0];
    }
  }

  lemma StripInfix(s: string, k: nat, l: string, r: string)
    requires k <= |s| && l == s[k..]
    requires |r| <= |l| && r == l[..|r|]
    requires forall i :: |r| <= i < |l| ==> IsSpace(l[i])
    ensures k + |r| <= |s| && r == s[k..k + |r|]
    ensures forall i :: k + |r| <= i < |s| ==> IsSpace(s[i])
  {
    forall i | k + |r| <= i < |s| ensures IsSpace(s[i]) {
      assert s[i] == l[i - k];
    }
  }

  lemma {:induction false} UpToQuoteSpec(s: string)
    ensures var n := UpToQuote(s);
            |n| <= |s| && n == s[..|n|] && '"' !in n && (|n| == |s| || s[|n|] == '"')
  {
    if s != [] && s[0] != '"' {
      UpToQuoteSpec(s[1..]);
      var t := UpToQuote(s[1..]);
      assert UpToQuote(s) == [s[0]] + t;
    }
  }

  /** The quoted field is missing exactly when s holds no `"`. */
  lemma {:induction false} QuotedFieldMissing(s: string)
    ensures QuotedField(s).None? <==> '"' !in s
  {
    if s != [] && s[0] != '"' {
      QuotedFieldMissing(s[1..]);
      assert s == [s[0]] + s[1..];
    }
  }

  /** When the first `"` of s is at k, the quoted field is what follows it up to the next `"` (or the end). */
  lemma {:induction false} QuotedFieldAt(s: string, k: nat)
    requires k < |s| && s[k] == '"' && '"' !in s[..k]
    ensures QuotedField(s) == Some(UpToQuote(s[k + 1..]))
  {
    if k > 0 {
      assert s[0] in s[..k];
      var t := s[1..];
      assert t[..k - 1] == s[1..k];
      assert forall c :: c in s[1..k] ==> c in s[..k];
      QuotedFieldAt(t, k - 1);
      assert t[k..] == s[k + 1..];
    }
  }

  /** A `child_frame_id:` line never counts as a `frame_id:` line. */
  lemma ChildLineIsNotFrameLine(s: string)
    requires StartsWith(s, "child_frame_id:")
    ensures !StartsWith(s, "frame_id:")
  {
    assert s[0] == 'c';
  }

  lemma {:induction false} StrLessIrreflexive(a: string)
    ensures !StrLess(a, a)
  {
    if a != [] {
      StrLessIrreflexive(a[1..]);
    }
  }

  lemma {:induction false} StrLessTransitive(a: string, b: string, c: string)
    requires StrLess(a, b) && StrLess(b, c)
    ensures StrLess(a, c)
  {
    if a != [] && b != [] && c != [] && a[0] == b[0] && b[0] == c[0] {
      StrLessTransitive(a[1..], b[1..], c[1..]);
    }
  }

  lemma {:induction false} StrLessTotal(a: string, b: string)
    requires a != b
    ensures StrLess(a, b) || StrLess(b, a)
  {
    if a != [] && b != [] && a[0] == b[0] {
      assert a == [a[0]] + a[1..] && b == [b[0]] + b[1..];
      StrLessTotal(a[1..], b[1..]);
    }
  }

  lemma StrLessAsymmetric(a: string, b: string)
    requires StrLess(a, b)
    ensures !StrLess(b, a)
  {
    if StrLess(b, a) {
      StrLessTransitive(a, b, a);
      StrLessIrreflexive(a);
    }
  }

  /** Insertion keeps the list strictly sorted and adds exactly x. */
  lemma {:induction false} InsertSpec(s: seq<string>, x: string)
    requires StrictlySorted(s)
    ensures StrictlySorted(Insert(s, x))
    ensures forall y :: y in Insert(s, x) <==> y in s || y == x
  {
    if s != [] && s[0] != x && !StrLess(x, s[0]) {
      StrLessTotal(x, s[0]);
      InsertSpec(s[1..], x);
      var t := Insert(s[1..], x);
      forall j | 0 < j < |[s[0]] + t| ensures StrLess(s[0], ([s[0]] + t)[j]) {
        var y := t[j - 1];
        assert y in s[1..] || y == x;
      }
    } else if s != [] && s[0] != x {
      forall j | 0 < j < |[x] + s| ensures StrLess(x, ([x] + s)[j]) {
        if j > 1 {
          StrLessTransitive(x, s[0], s[j - 1]);
        }
      }
    }
  }

  /** A strictly sorted list is determined by its elements: the sorted listing of a set is unique. */
  lemma {:induction false} SortedUnique(a: seq<string>, b: seq<string>)
    requires StrictlySorted(a) && StrictlySorted(b)
    requires forall y :: y in a <==> y in b
    ensures a == b
  {
    assert a != [] ==> a[0] in b;
    assert b != [] ==> b[0] in a;
    if a != [] && b != [] {
      assert a[0] in a && b[0] in b;
      if a[0] != b[0] {
        var i :| 0 <= i < |b| && b[i] == a[0];
        var j :| 0 <= j < |a| && a[j] == b[0];
        assert StrLess(b[0], a[0]) && StrLess(a[0], b[0]);
        StrLessAsymmetric(a[0], b[0]);
      } else {
        forall y ensures y in a[1..] <==> y in b[1..] {
          SortedTailMember(a, y);
          SortedTailMember(b, y);
        }
        SortedUnique(a[1..], b[1..]);
        assert a == [a[0]] + a[1..] && b == [b[0]] + b[1..];
      }
    }
  }

  /** In a strictly sorted list, the tail holds exactly the elements other than the head. */
  lemma SortedTailMember(a: seq<string>, y: string)
    requires StrictlySorted(a) && a != []
    ensures y in a[1..] <==> y in a && y != a[0]
  {
    if y in a[1..] {
      var i :| 0 <= i < |a[1..]| && a[1..][i] == y;
      assert StrLess(a[0], a[i + 1]);
      StrLessIrreflexive(y);
    }
    if y in a && y != a[0] {
      var i :| 0 <= i < |a| && a[i] == y;
      assert a[1..][i - 1] == y;
    }
  }

  // ---- properties of the declarative reading ----------------------------

  /** Every recorded child, and every parent that has one, is a key. */
  lemma {:induction false} ChildSetWithinLinks(ks: seq<LineKind>, p: string)
    ensures ChildSet(ks, p) <= Links(ks)
    ensures ChildSet(ks, p) != {} ==> p in Links(ks)
  {
    if ks != [] {
      var init := ks[..|ks| - 1];
      ChildSetWithinLinks(init, p);
      LastParentIsLink(init);
    }
  }

  lemma {:induction false} LastParentIsLink(ks: seq<LineKind>)
    ensures LastParent(ks).Some? ==> LastParent(ks).value in Links(ks)
  {
    if ks != [] {
      LastParentIsLink(ks[..|ks| - 1]);
    }
  }

  /** No line fails exactly when FirstError reports nothing. */
  lemma {:induction false} FirstErrorNone(ks: seq<LineKind>)
    ensures FirstError(ks).None? <==> forall i :: 0 <= i < |ks| ==> LineError(ks[..i], ks[i], i).None?
  {
    if ks != [] {
      var n := |ks| - 1;
      var init := ks[..n];
      FirstErrorNone(init);
      forall i | 0 <= i < n ensures init[..i] == ks[..i] && init[i] == ks[i] {
      }
    }
  }

  /** FirstError names the line at which the earliest failure happens. */
  lemma {:induction false} FirstErrorIsFirst(ks: seq<LineKind>)
    requires FirstError(ks).Some?
    ensures exists k :: 0 <= k < |ks| && LineError(ks[..k], ks[k], k) == FirstError(ks) &&
                        forall i :: 0 <= i < k ==> LineError(ks[..i], ks[i], i).None?
  {
    var n := |ks| - 1;
    var init := ks[..n];
    forall i | 0 <= i < n ensures init[..i] == ks[..i] && init[i] == ks[i] {
    }
    if FirstError(init).Some? {
      FirstErrorIsFirst(init);
      var k :| 0 <= k < n && LineError(init[..k], init[k], k) == FirstError(init) &&
               forall i :: 0 <= i < k ==> LineError(init[..i], init[i], i).None?;
      assert LineError(ks[..k], ks[k], k) == FirstError(ks);
    } else {
      FirstErrorNone(init);
      assert LineError(ks[..n], ks[n], n) == FirstError(ks);
    }
  }

  /** A child line before any frame line makes the scan fail. */
  lemma ChildBeforeAnyFrameFails(ks: seq<LineKind>, i: nat, n: string)
    requires i < |ks| && ks[i] == ChildLine(n)
    requires LastParent(ks[..i]).None?
    ensures FirstError(ks).Some?
  {
    FirstErrorNone(ks);
    assert LineError(ks[..i], ks[i], i).Some?;
  }

  lemma PrefixSnoc<T>(s: seq<T>, i: nat)
    requires i < |s|
    ensures s[..i + 1] == s[..i] + [s[i]]
    ensures s[..i + 1][..i] == s[..i]
  {
  }

  /** How each declarative reading changes by one more line. */
  lemma ScanStep(ks: seq<LineKind>, i: nat)
    requires i < |ks|
    ensures ks[..i + 1][..i] == ks[..i] && ks[..i + 1][i] == ks[i]
    ensures LastParent(ks[..i + 1]) == if ks[i].FrameLine? then Some(ks[i].name) else LastParent(ks[..i])
    ensures Links(ks[..i + 1]) == Links(ks[..i]) + if ks[i].FrameLine? || ks[i].ChildLine? then {ks[i].name} else {}
    ensures forall p :: ChildSet(ks[..i + 1], p) == ChildSet(ks[..i], p) +
              if ks[i].ChildLine? && LastParent(ks[..i]) == Some(p) then {ks[i].name} else {}
    ensures FirstError(ks[..i + 1]) == if FirstError(ks[..i]).Some? then FirstError(ks[..i]) else LineError(ks[..i], ks[i], i)
    ensures LastParent(ks[..i]).Some? ==> LastParent(ks[..i]).value in Links(ks[..i])
  {
    PrefixSnoc(ks, i);
    LastParentIsLink(ks[..i]);
  }

  /** Once a prefix fails, the whole input fails the same way. */
  lemma {:induction false} FirstErrorPersists(ks: seq<LineKind>, k: nat)
    requires k <= |ks|
    requires FirstError(ks[..k]).Some?
    ensures FirstError(ks) == FirstError(ks[..k])
    decreases |ks| - k
  {
    if k < |ks| {
      PrefixSnoc(ks, k);
      FirstErrorPersists(ks, k + 1);
    } else {
      assert ks[..k] == ks;
    }
  }

  /** `sorted(list(v))` for a set of names. */
  method SortedList(v: set<string>) returns (r: seq<string>)
    ensures StrictlySorted(r)
    ensures forall y :: y in r <==> y in v
  {
    r := [];
    var rest := v;
    while rest != {}
      invariant rest <= v
      invariant StrictlySorted(r)
      invariant forall y :: y in r <==> y in v - rest
      decreases rest
    {
      var x :| x in rest;
      InsertSpec(r, x);
      r := Insert(r, x);
      rest := rest - {x};
    }
  }

  /**
   * The line loop: a frame line sets the parent, a child line adds its name
   * to the parent's set; both record the name as a link.
   */
  method ScanLines(lines: seq<string>)
    returns (r: Result<(map<string, set<string>>, set<string>), ParseError>)
    ensures var ks := Kinds(lines);
            (r.Err? <==> FirstError(ks).Some?) &&
            (r.Err? ==> r.error == FirstError(ks).value) &&
            (r.Ok? ==> var (connections, allLinks) := r.value;
                       allLinks == Links(ks) && connections.Keys <= allLinks &&
                       (forall p :: p in connections ==> connections[p] == ChildSet(ks, p)) &&
                       (forall p :: p !in connections ==> ChildSet(ks, p) == {}))
  {
    ghost var ks := Kinds(lines);
    var connections: map<string, set<string>> := map[];
    var allLinks: set<string> := {};
    var parent: Option<string> := None;
    for i := 0 to |lines|
      invariant FirstError(ks[..i]).None?
      invariant parent == LastParent(ks[..i])
      invariant allLinks == Links(ks[..i])
      invariant connections.Keys <= allLinks
      invariant forall p :: p in connections ==> connections[p] == ChildSet(ks[..i], p)
      invariant forall p :: p !in connections ==> ChildSet(ks[..i], p) == {}
    {
      ScanStep(ks, i);
      var kind := Classify(lines[i]);
      assert kind == ks[i];
      match kind
      case Malformed =>
        FirstErrorPersists(ks, i + 1);
        return Err(MissingQuote(i));
      case FrameLine(n) =>
        parent := Some(n);
        allLinks := allLinks + {n};
      case ChildLine(n) =>
        if parent.None? {
          FirstErrorPersists(ks, i + 1);
          return Err(ChildBeforeFrame(i));
        }
        allLinks := allLinks + {n};
        var siblings := if parent.value in connections then connections[parent.value] else {};
        connections := connections[parent.value := siblings + {n}];
      case Other =>
    }
    assert ks[..|lines|] == ks;
    return Ok((connections, allLinks));
  }

  /** `connections.setdefault(link, set())` for every link. */
  method AddMissingLinks(connections: map<string, set<string>>, allLinks: set<string>)
    returns (filled: map<string, set<string>>)
    ensures filled.Keys == connections.Keys + allLinks
    ensures forall p :: p in connections ==> filled[p] == connections[p]
    ensures forall p :: p in filled && p !in connections ==> filled[p] == {}
  {
    filled := connections;
    var remaining := allLinks;
    while remaining != {}
      invariant remaining <= allLinks
      invariant filled.Keys == connections.Keys + (allLinks - remaining)
      invariant forall p :: p in connections ==> filled[p] == connections[p]
      invariant forall p :: p in filled && p !in connections ==> filled[p] == {}
      decreases remaining
    {
      var link :| link in remaining;
      if link !in filled {
        filled := filled[link := {}];
      }
      remaining := remaining - {link};
    }
  }

  /** `{k: sorted(list(v)) for k, v in connections.items()}`. */
  method SortAll(connections: map<string, set<string>>) returns (result: map<string, seq<string>>)
    ensures result.Keys == connections.Keys
    ensures forall p :: p in result ==>
              StrictlySorted(result[p]) && forall c :: c in result[p] <==> c in connections[p]
  {
    result := map[];
    var pending := connections.Keys;
    while pending != {}
      invariant pending <= connections.Keys
      invariant result.Keys == connections.Keys - pending
      invariant forall p :: p in result ==>
                  StrictlySorted(result[p]) && forall c :: c in result[p] <==> c in connections[p]
      decreases pending
    {
      var k :| k in pending;
      var sorted := SortedList(connections[k]);
      result := result[k := sorted];
      pending := pending - {k};
    }
  }

  /**
   * The whole reader: every name seen maps to its children, strictly sorted;
   * the first failing line ends the scan.
   */
  method ParseTfLines(lines: seq<string>) returns (r: Result<map<string, seq<string>>, ParseError>)
    ensures var ks := Kinds(lines);
            (r.Err? <==> FirstError(ks).Some?) &&
            (r.Err? ==> r.error == FirstError(ks).value) &&
            (r.Ok? ==> r.value.Keys == Links(ks) &&
                       forall p :: p in r.value ==>
                         StrictlySorted(r.value[p]) && forall c :: c in r.value[p] <==> c in ChildSet(ks, p))
  {
    var scanned := ScanLines(lines);
    if scanned.Err? {
      return Err(scanned.error);
    }
    var (connections, allLinks) := scanned.value;
    var filled := AddMissingLinks(connections, allLinks);
    var sorted := SortAll(filled);
    return Ok(sorted);
  }
}
