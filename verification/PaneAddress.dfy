/** Addresses of terminal panes: the text form, its parser and its printer. */
module PaneAddress {
  import opened Sequences
  import opened Decimal

  datatype Host = Local | Tailscale | Ssh(user: string, host: string)

  datatype Address = Address(machine: string, host: Host, window: nat, pane: nat)

  datatype Error = EmptyAddress | MissingHost | EmptyMachine | InvalidMachine | NegativeIndex | IndexOutOfRange
                 | EmptyHost | NoAt | EmptyUser | EmptySshHost | UnknownHost

  datatype Result<T> = Ok(value: T) | Err(error: Error)

  const U32_LIMIT: nat := 0x1_0000_0000

  // ---- text helpers ----

  /** Split at the first `c`. */
  function SplitOnce(s: string, c: char): (r: Option<(string, string)>)
    ensures r.Some? <==> c in s
    ensures r.Some? ==> s == r.value.0 + [c] + r.value.1 && c !in r.value.0
  {
    if s == [] then None
    else if s[0] == c then Some(([], s[1..]))
    else
      match SplitOnce(s[1..], c)
      case None => None
      case Some((left, right)) => Some(([s[0]] + left, right))
  }

  /** Split at the last `c`. */
  function SplitOnceRev(s: string, c: char): (r: Option<(string, string)>)
    ensures r.Some? <==> c in s
    ensures r.Some? ==> s == r.value.0 + [c] + r.value.1 && c !in r.value.1
  {
    if s == [] then None
    else if s[|s| - 1] == c then Some((s[..|s| - 1], []))
    else
      match SplitOnceRev(s[..|s| - 1], c)
      case None => None
      case Some((left, right)) => Some((left, right + [s[|s| - 1]]))
  }

  predicate IsMachineChar(c: char) {
    'a' <= c <= 'z' || 'A' <= c <= 'Z' || IsDigit(c) || c == '-' || c == '_' || c == '.'
  }

  predicate IsValidMachine(s: string) {
    s != [] && forall i :: 0 <= i < |s| ==> IsMachineChar(s[i])
  }

  // ---- printer ----

  function PrintHost(h: Host): (s: string) {
    match h
    case Local => "local"
    case Tailscale => "tailscale"
    case Ssh(user, host) => "ssh:" + (user + "@" + host)
  }

  function PrintAddress(a: Address): (s: string) {
    a.machine + ":" + (PrintHost(a.host) + ":" + Decimal.Print(a.window) + ":" + Decimal.Print(a.pane))
  }

  // ---- well-formedness ----

  predicate WellFormedHost(h: Host) {
    h.Ssh? ==> h.user != [] && '@' !in h.user && h.host != []
  }

  predicate WellFormed(a: Address) {
    IsValidMachine(a.machine) && WellFormedHost(a.host) && a.window < U32_LIMIT && a.pane < U32_LIMIT
  }

  // ---- parser ----

  /** `s` is decimal text, leading zeros allowed, of the `u32` number `n`. */
  predicate Denotes(s: string, n: nat) {
    s != [] && AllDigits(s) && Value(s) == n && n < U32_LIMIT
  }

  /** A `u32` index, or nothing when the text is not numeric. The number read is the one the text stands for;
      refused are a leading minus and a number out of range, and every other text is no index. */
  function ParseIndex(s: string): (r: Result<Option<nat>>)
    ensures r.Ok? && r.value.Some? ==> Denotes(s, r.value.value)
    ensures forall n :: Denotes(s, n) ==> r == Ok(Some(n))
    ensures r == Err(NegativeIndex) <==> s != [] && s[0] == '-'
    ensures r == Err(IndexOutOfRange) <==> s != [] && AllDigits(s) && Value(s) >= 0x1_0000_0000
    ensures r.Err? ==> r.error == NegativeIndex || r.error == IndexOutOfRange
  {
    if s == [] then Ok(None)
    else if !AllDigits(s) then (if s[0] == '-' then Err(NegativeIndex) else Ok(None))
    else if Value(s) >= U32_LIMIT then Err(IndexOutOfRange)
    else Ok(Some(Value(s)))
  }

  /** Peel trailing pane and window indices; what is left is the host. */
  function PeelPaneWindow(s: string): (r: Result<(nat, nat, string)>)
    ensures r.Ok? ==> r.value.0 < U32_LIMIT && r.value.1 < U32_LIMIT
  {
    match SplitOnceRev(s, ':')
    case None => Ok((0, 0, s))
    case Some((left, right)) =>
      match ParseIndex(right)
      case Err(e) => Err(e)
      case Ok(None) => Ok((0, 0, s))
      case Ok(Some(pane)) =>
        match SplitOnceRev(left, ':')
        case None => Ok((pane, 0, left))
        case Some((left2, right2)) =>
          match ParseIndex(right2)
          case Err(e) => Err(e)
          case Ok(None) => Ok((pane, 0, left))
          case Ok(Some(window)) => Ok((pane, window, left2))
  }

  function ParseHost(s: string): (r: Result<Host>)
    ensures r.Ok? ==> WellFormedHost(r.value) && PrintHost(r.value) == s
  {
    if s == [] then Err(EmptyHost)
    else if s == "local" then Ok(Local)
    else if s == "tailscale" then Ok(Tailscale)
    else if "ssh:" <= s then
      match SplitOnce(s[4..], '@')
      case None => Err(NoAt)
      case Some((user, host)) =>
        if user == [] then Err(EmptyUser)
        else if host == [] then Err(EmptySshHost)
        else
          assert s == s[..4] + s[4..];
          assert s[..4] == "ssh:";
          Ok(Ssh(user, host))
    else Err(UnknownHost)
  }

  function Parse(s: string): (r: Result<Address>) {
    if s == [] then Err(EmptyAddress)
    else
      match SplitOnce(s, ':')
      case None => Err(MissingHost)
      case Some((machine, rest)) =>
        if machine == [] then Err(EmptyMachine)
        else if !IsValidMachine(machine) then Err(InvalidMachine)
        else
          match PeelPaneWindow(rest)
          case Err(e) => Err(e)
          case Ok((pane, window, hostText)) =>
            match ParseHost(hostText)
            case Err(e) => Err(e)
            case Ok(host) => Ok(Address(machine, host, window, pane))
  }

  // ---- the laws ----

  lemma {:induction false} SplitOnceAt(left: string, c: char, right: string)
    requires c !in left
    ensures SplitOnce(left + [c] + right, c) == Some((left, right))
  {
    var s := left + [c] + right;
    if left == [] {
      assert s[1..] == right;
    } else {
      assert s[1..] == left[1..] + [c] + right;
      SplitOnceAt(left[1..], c, right);
      assert s[0] == left[0] && left[0] in left;
      assert left == [left[0]] + left[1..];
    }
  }

  lemma {:induction false} SplitOnceRevAt(left: string, c: char, right: string)
    requires c !in right
    ensures SplitOnceRev(left + [c] + right, c) == Some((left, right))
  {
    var s := left + [c] + right;
    if right == [] {
      assert s[..|s| - 1] == left;
    } else {
      var init := right[..|right| - 1];
      assert s[..|s| - 1] == left + [c] + init;
      SplitOnceRevAt(left, c, init);
      assert right == init + [right[|right| - 1]];
    }
  }

  lemma PrintedIndexParses(n: nat)
    requires n < U32_LIMIT
    ensures ParseIndex(Decimal.Print(n)) == Ok(Some(n)) && ':' !in Decimal.Print(n)
  {
    PrintThenValue(n);
  }

  /** Printed indices are peeled off again, whatever the host text is. */
  lemma PeelPrinted(host: string, window: nat, pane: nat)
    requires window < U32_LIMIT && pane < U32_LIMIT
    ensures PeelPaneWindow(host + ":" + Decimal.Print(window) + ":" + Decimal.Print(pane)) == Ok((pane, window, host))
  {
    PrintedIndexParses(window);
    PrintedIndexParses(pane);
    SplitOnceRevAt(host + ":" + Decimal.Print(window), ':', Decimal.Print(pane));
    SplitOnceRevAt(host, ':', Decimal.Print(window));
  }

  lemma NotAPlainHost(rest: string)
    ensures var s := "ssh:" + rest; s != "local" && s != "tailscale" && "ssh:" <= s && s[4..] == rest
  {
    var s := "ssh:" + rest;
    assert s[0] == 's' && "local"[0] == 'l' && "tailscale"[0] == 't';
  }

  lemma HostRoundTrip(h: Host)
    requires WellFormedHost(h)
    ensures ParseHost(PrintHost(h)) == Ok(h)
  {
    if h.Ssh? {
      NotAPlainHost(h.user + "@" + h.host);
      SplitOnceAt(h.user, '@', h.host);
      assert h.user + "@" + h.host == h.user + ['@'] + h.host;
    }
  }

  /** Which host texts are accepted, and as what, and why the others are refused. */
  lemma ParseHostIs(s: string)
    ensures s == "local" ==> ParseHost(s) == Ok(Local)
    ensures s == "tailscale" ==> ParseHost(s) == Ok(Tailscale)
    ensures s == "" ==> ParseHost(s) == Err(EmptyHost)
    ensures s != "" && s != "local" && s != "tailscale" && !("ssh:" <= s) ==> ParseHost(s) == Err(UnknownHost)
  {
  }

  lemma ParseSshIs(user: string, host: string)
    requires '@' !in user
    ensures ParseHost("ssh:" + user) == Err(NoAt)
    ensures ParseHost("ssh:" + (user + "@" + host)) ==
            if user == "" then Err(EmptyUser) else if host == "" then Err(EmptySshHost) else Ok(Ssh(user, host))
  {
    NotAPlainHost(user);
    NotAPlainHost(user + "@" + host);
    SplitOnceAt(user, '@', host);
    assert user + "@" + host == user + ['@'] + host;
  }

  lemma MachineThenRest(machine: string, rest: string)
    requires IsValidMachine(machine)
    ensures SplitOnce(machine + ":" + rest, ':') == Some((machine, rest))
  {
    SplitOnceAt(machine, ':', rest);
  }

  /** Only well-formed addresses come out of the parser. */
  lemma ParsedIsWellFormed(s: string)
    requires Parse(s).Ok?
    ensures WellFormed(Parse(s).value)
  {
  }

  /** Why a text is refused before its indices and host are looked at; every text is `m`, or `m` and a colon and
      more, for some `m` without a colon. */
  lemma ParseRefuses(m: string, rest: string)
    requires ':' !in m
    ensures Parse(m) == if m == "" then Err(EmptyAddress) else Err(MissingHost)
    ensures m == "" ==> Parse(m + ":" + rest) == Err(EmptyMachine)
    ensures m != "" && !IsValidMachine(m) ==> Parse(m + ":" + rest) == Err(InvalidMachine)
  {
    SplitOnceAt(m, ':', rest);
    assert m + ":" + rest == m + [':'] + rest;
  }

  /** A last segment that looks like a bad index is refused as such, and so is the one before a good index. */
  lemma PeelRefuses(left: string, mid: string, right: string, e: Error)
    requires ':' !in mid && ':' !in right
    ensures ParseIndex(right) == Err(e) ==> PeelPaneWindow(left + [':'] + right) == Err(e)
    ensures ParseIndex(right).Ok? && ParseIndex(right).value.Some? && ParseIndex(mid) == Err(e) ==>
            PeelPaneWindow(left + [':'] + mid + [':'] + right) == Err(e)
  {
    SplitOnceRevAt(left, ':', right);
    SplitOnceRevAt(left, ':', mid);
    SplitOnceRevAt(left + [':'] + mid, ':', right);
  }

  /** With a valid machine, the error is that of the indices, or else that of the host. */
  lemma ParseForwards(m: string, rest: string)
    requires IsValidMachine(m)
    ensures PeelPaneWindow(rest).Err? ==> Parse(m + ":" + rest) == Err(PeelPaneWindow(rest).error)
    ensures PeelPaneWindow(rest).Ok? && ParseHost(PeelPaneWindow(rest).value.2).Err? ==>
            Parse(m + ":" + rest) == Err(ParseHost(PeelPaneWindow(rest).value.2).error)
  {
    MachineThenRest(m, rest);
  }

  /** The characters of a machine name, written out. */
  lemma MachineChars(c: char)
    ensures IsMachineChar(c) <==>
            c in "abcdefghijklmnopqrstuvwxyz" || c in "ABCDEFGHIJKLMNOPQRSTUVWXYZ" || c in "0123456789-_."
  {
  }

  lemma DigitsHaveNoColon(s: string)
    requires AllDigits(s)
    ensures ':' !in s
  {
  }

  lemma {:induction false} LastSegment(prefix: string, left: string, right: string)
    requires ':' !in right
    ensures SplitOnceRev(prefix + (left + ":" + right), ':') == Some((prefix + left, right))
  {
    SplitOnceRevAt(prefix + left, ':', right);
    assert prefix + (left + ":" + right) == prefix + left + [':'] + right;
  }

  /** The printed form always ends with the window and the pane, whatever they are. */
  lemma DisplayHasBothIndices(a: Address)
    ensures var outer := SplitOnceRev(PrintAddress(a), ':');
      && outer.Some? && outer.value.1 == Decimal.Print(a.pane)
      && SplitOnceRev(outer.value.0, ':') == Some((a.machine + ":" + PrintHost(a.host), Decimal.Print(a.window)))
  {
    DigitsHaveNoColon(Decimal.Print(a.window));
    DigitsHaveNoColon(Decimal.Print(a.pane));
    LastSegment(a.machine + ":", PrintHost(a.host) + ":" + Decimal.Print(a.window), Decimal.Print(a.pane));
    LastSegment(a.machine + ":", PrintHost(a.host), Decimal.Print(a.window));
  }

  /** Printing and parsing back returns the address exactly when it is well-formed, for all indices. */
  lemma RoundTripIff(a: Address)
    ensures Parse(PrintAddress(a)) == Ok(a) <==> WellFormed(a)
  {
    if WellFormed(a) {
      MachineThenRest(a.machine, PrintHost(a.host) + ":" + Decimal.Print(a.window) + ":" + Decimal.Print(a.pane));
      PeelPrinted(PrintHost(a.host), a.window, a.pane);
      HostRoundTrip(a.host);
    } else if Parse(PrintAddress(a)) == Ok(a) {
      ParsedIsWellFormed(PrintAddress(a));
    }
  }

  /** The printed form is canonical: parsing any accepted text and printing it gives a text that parses to
      the same address. */
  lemma ParseIsStable(s: string)
    requires Parse(s).Ok?
    ensures Parse(PrintAddress(Parse(s).value)) == Parse(s)
  {
    ParsedIsWellFormed(s);
    RoundTripIff(Parse(s).value);
  }

  /** A host text whose last segment cannot be taken for an index. */
  predicate NoTrailingIndex(host: string) {
    match SplitOnceRev(host, ':')
    case None => true
    case Some((_, right)) => ParseIndex(right) == Ok(None)
  }

  /** `tail` is the index part after `host`: a window and a pane; or a pane or nothing, provided the last
      segment of the host cannot be taken for an index. */
  ghost predicate IndexTail(host: string, tail: string, window: nat, pane: nat) {
    || (tail == "" && window == 0 && pane == 0 && NoTrailingIndex(host))
    || (exists p :: tail == ":" + p && Denotes(p, pane) && window == 0 && NoTrailingIndex(host))
    || (exists w, p :: tail == ":" + w + ":" + p && Denotes(w, window) && Denotes(p, pane))
  }

  lemma PeelNone(host: string)
    requires NoTrailingIndex(host)
    ensures PeelPaneWindow(host + "") == Ok((0, 0, host))
  {
    assert host + "" == host;
  }

  lemma PeelOne(host: string, p: string, pane: nat)
    requires Denotes(p, pane) && NoTrailingIndex(host)
    ensures PeelPaneWindow(host + (":" + p)) == Ok((pane, 0, host))
  {
    DigitsHaveNoColon(p);
    SplitOnceRevAt(host, ':', p);
    assert host + (":" + p) == host + [':'] + p;
  }

  lemma PeelTwo(host: string, w: string, p: string, window: nat, pane: nat)
    requires Denotes(w, window) && Denotes(p, pane)
    ensures PeelPaneWindow(host + (":" + w + ":" + p)) == Ok((pane, window, host))
  {
    DigitsHaveNoColon(w);
    DigitsHaveNoColon(p);
    SplitOnceRevAt(host + [':'] + w, ':', p);
    SplitOnceRevAt(host, ':', w);
    assert host + (":" + w + ":" + p) == host + [':'] + w + [':'] + p;
  }

  lemma PeelTail(host: string, tail: string, window: nat, pane: nat)
    requires IndexTail(host, tail, window, pane)
    ensures PeelPaneWindow(host + tail) == Ok((pane, window, host))
  {
    if tail == "" {
      PeelNone(host);
    } else if w, p :| tail == ":" + w + ":" + p && Denotes(w, window) && Denotes(p, pane) {
      PeelTwo(host, w, p, window, pane);
    } else {
      var p :| tail == ":" + p && Denotes(p, pane) && window == 0 && NoTrailingIndex(host);
      PeelOne(host, p, pane);
    }
  }

  lemma PeeledTail(s: string) returns (tail: string)
    requires PeelPaneWindow(s).Ok?
    ensures var (pane, window, host) := PeelPaneWindow(s).value;
      s == host + tail && IndexTail(host, tail, window, pane)
  {
    var (pane, window, host) := PeelPaneWindow(s).value;
    tail := "";
    var outer := SplitOnceRev(s, ':');
    if outer.Some? {
      var (left, right) := outer.value;
      if ParseIndex(right).value.Some? {
        assert Denotes(right, pane);
        var inner := SplitOnceRev(left, ':');
        if inner.Some? && ParseIndex(inner.value.1).value.Some? {
          var (left2, right2) := inner.value;
          assert Denotes(right2, window);
          tail := ":" + right2 + ":" + right;
          assert s == left2 + tail;
        } else {
          tail := ":" + right;
          assert s == left + tail;
        }
      }
    }
  }

  /** Which texts the parser accepts, and as what: `s` is read as `a` if and only if `a` is well-formed and `s`
      is its machine, a colon, its printed host and an index part that gives its window and pane. */
  lemma ParseIff(s: string, a: Address)
    ensures Parse(s) == Ok(a) <==>
      && WellFormed(a)
      && exists tail ::
           && s == a.machine + ":" + (PrintHost(a.host) + tail)
           && IndexTail(PrintHost(a.host), tail, a.window, a.pane)
  {
    if Parse(s) == Ok(a) {
      ParsedIsWellFormed(s);
      var rest := SplitOnce(s, ':').value.1;
      var tail := PeeledTail(rest);
      assert s == a.machine + ":" + (PrintHost(a.host) + tail);
    }
    if WellFormed(a) {
      forall tail |
        s == a.machine + ":" + (PrintHost(a.host) + tail) && IndexTail(PrintHost(a.host), tail, a.window, a.pane)
        ensures Parse(s) == Ok(a)
      {
        MachineThenRest(a.machine, PrintHost(a.host) + tail);
        PeelTail(PrintHost(a.host), tail, a.window, a.pane);
        HostRoundTrip(a.host);
      }
    }
  }

  /** A single trailing index is the pane, not the window the address grammar in the documentation names
      first; the two readings agree exactly when the index is 0. */
  lemma LoneIndexIsPane(machine: string, host: Host, n: nat)
    requires IsValidMachine(machine) && WellFormedHost(host) && NoTrailingIndex(PrintHost(host)) && n < U32_LIMIT
    ensures var r := Parse(machine + ":" + (PrintHost(host) + ":" + Decimal.Print(n)));
      r == Ok(Address(machine, host, 0, n)) && (r == Ok(Address(machine, host, n, 0)) <==> n == 0)
  {
    MachineThenRest(machine, PrintHost(host) + ":" + Decimal.Print(n));
    PrintedIndexParses(n);
    SplitOnceRevAt(PrintHost(host), ':', Decimal.Print(n));
    HostRoundTrip(host);
  }
}
