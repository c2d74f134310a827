/** Model of ip_analyzer.py: `extract_ip_addresses` collects, line by line,
    every address that `re.findall` finds for the pattern
    `client\s+(\d{1,3}\.\d{1,3}\.\d{1,3}\.\d{1,3})#`;
    `count_ip_occurrences` is a `Counter` of that list and
    `find_duplicate_ips` keeps the entries counted more than once.

    The pattern is matched by hand. It needs no backtracking: `\s+` must
    take the whole run of white space (a digit follows it), and each
    `\d{1,3}` must take the whole run of digits (a '.' or '#' follows it),
    so a match exists at a position exactly when the greedy reading
    succeeds there. */
module IpAnalyzer {
  import opened Records
  import opened Text
  import opened Sequences

  const Client := "client"
  /** The number of dot-separated groups in an address. */
  const Octets: nat := 4

  // ---------------------------------------------------------------------
  // The pattern, stated declaratively

  predicate AllDigits(s: string) {
    forall i :: 0 <= i < |s| ==> IsDigit(s[i])
  }

  /** `\d{1,3}`. */
  predicate IsGroup(s: string) {
    1 <= |s| <= 3 && AllDigits(s)
  }

  /** `s` starts with a group of `k` digits followed by a dot. */
  predicate LeadingGroup(s: string, k: nat) {
    k < |s| && IsGroup(s[..k]) && s[k] == '.'
  }

  /** `s` is `n` groups of one to three digits separated by dots. */
  predicate IsGroups(s: string, n: nat)
    decreases n
  {
    if n <= 1 then n == 1 && IsGroup(s)
    else
      || (LeadingGroup(s, 1) && IsGroups(s[2..], n - 1))
      || (LeadingGroup(s, 2) && IsGroups(s[3..], n - 1))
      || (LeadingGroup(s, 3) && IsGroups(s[4..], n - 1))
  }

  /** The captured group: `\d{1,3}\.\d{1,3}\.\d{1,3}\.\d{1,3}`. */
  predicate IsIpText(s: string) {
    IsGroups(s, Octets)
  }

  /** The pattern matches `line[p..e]` with `w` white-space characters after
      `client` and captures `ip`. */
  predicate MatchesWith(line: string, p: nat, w: nat, ip: string, e: nat) {
    && w >= 1 && e == p + |Client| + w + |ip| + 1 && e <= |line|
    && line[p..p + |Client|] == Client
    && (forall j :: p + |Client| <= j < p + |Client| + w ==> IsSpace(line[j]))
    && line[p + |Client| + w..e - 1] == ip
    && IsIpText(ip)
    && line[e - 1] == '#'
  }

  // ---------------------------------------------------------------------
  // The matcher

  /** The length of the run of white space starting at `i`. */
  function SpaceRun(line: string, i: nat): (n: nat)
    requires i <= |line|
    ensures i + n <= |line|
    decreases |line| - i
  {
    if i < |line| && IsSpace(line[i]) then 1 + SpaceRun(line, i + 1) else 0
  }

  /** The length of the run of digits starting at `i`. */
  function DigitRun(line: string, i: nat): (n: nat)
    requires i <= |line|
    ensures i + n <= |line|
    decreases |line| - i
  {
    if i < |line| && IsDigit(line[i]) then 1 + DigitRun(line, i + 1) else 0
  }

  /** Where `n` dot-separated groups starting at `i` end, if they are there. */
  function GroupsEnd(line: string, i: nat, n: nat): (r: Option<nat>)
    requires i <= |line| && n >= 1
    ensures r.Some? ==> i < r.value <= |line|
    decreases n
  {
    var k := DigitRun(line, i);
    if k < 1 || k > 3 then None
    else if n == 1 then Some(i + k)
    else if i + k < |line| && line[i + k] == '.' then GroupsEnd(line, i + k + 1, n - 1)
    else None
  }

  /** A match of the pattern starting at `p`: the captured address and the
      position just after the '#'. */
  function MatchAt(line: string, p: nat): (r: Option<(string, nat)>)
    ensures r.Some? ==> p < r.value.1 <= |line| && line[p] == Client[0]
  {
    if !(p + |Client| <= |line| && line[p..p + |Client|] == Client) then None
    else MatchAfterClient(line, p + |Client|)
  }

  /** The rest of a match once `client` has been seen and `start` is just after it. */
  function MatchAfterClient(line: string, start: nat): (r: Option<(string, nat)>)
    requires start <= |line|
    ensures r.Some? ==> start < r.value.1 <= |line|
  {
    var w := SpaceRun(line, start);
    if w == 0 then None else CaptureAt(line, start + w)
  }

  /** The captured address starting at `i` and the `#` after it. */
  function CaptureAt(line: string, i: nat): (r: Option<(string, nat)>)
    requires i <= |line|
    ensures r.Some? ==> i < r.value.1 <= |line|
  {
    match GroupsEnd(line, i, Octets)
    case None => None
    case Some(j) => if j < |line| && line[j] == '#' then Some((line[i..j], j + 1)) else None
  }

  // ---------------------------------------------------------------------
  // The matcher finds exactly the matches of the pattern

  lemma {:induction false} GroupsEndSound(line: string, i: nat, n: nat)
    requires i <= |line| && n >= 1 && GroupsEnd(line, i, n).Some?
    ensures IsGroups(line[i..GroupsEnd(line, i, n).value], n)
    decreases n
  {
    var k := DigitRun(line, i);
    DigitRunMaximal(line, i);
    var j := GroupsEnd(line, i, n).value;
    var s := line[i..j];
    assert s[..k] == line[i..i + k];
    if n > 1 {
      GroupsEndSound(line, i + k + 1, n - 1);
      assert s[k + 1..] == line[i + k + 1..j];
      assert LeadingGroup(s, k);
    }
  }

  /** The run of white space is all white space and maximal. */
  lemma {:induction false} SpaceRunMaximal(line: string, i: nat)
    requires i <= |line|
    ensures forall j :: i <= j < i + SpaceRun(line, i) ==> IsSpace(line[j])
    ensures i + SpaceRun(line, i) == |line| || !IsSpace(line[i + SpaceRun(line, i)])
    decreases |line| - i
  {
    if i < |line| && IsSpace(line[i]) {
      SpaceRunMaximal(line, i + 1);
    }
  }

  /** The run of digits is all digits and maximal. */
  lemma {:induction false} DigitRunMaximal(line: string, i: nat)
    requires i <= |line|
    ensures forall j :: i <= j < i + DigitRun(line, i) ==> IsDigit(line[j])
    ensures i + DigitRun(line, i) == |line| || !IsDigit(line[i + DigitRun(line, i)])
    decreases |line| - i
  {
    if i < |line| && IsDigit(line[i]) {
      DigitRunMaximal(line, i + 1);
    }
  }

  lemma SpaceRunExact(line: string, i: nat, w: nat)
    requires i + w <= |line|
    requires forall j :: i <= j < i + w ==> IsSpace(line[j])
    requires i + w == |line| || !IsSpace(line[i + w])
    ensures SpaceRun(line, i) == w
    decreases w
  {
    if w > 0 {
      SpaceRunExact(line, i + 1, w - 1);
    }
  }

  lemma DigitRunExact(line: string, i: nat, k: nat)
    requires i + k <= |line|
    requires forall j :: i <= j < i + k ==> IsDigit(line[j])
    requires i + k == |line| || !IsDigit(line[i + k])
    ensures DigitRun(line, i) == k
    decreases k
  {
    if k > 0 {
      DigitRunExact(line, i + 1, k - 1);
    }
  }

  /** The length of the first group of several. */
  function FirstGroupLength(s: string, n: nat): (k: nat)
    requires n > 1 && IsGroups(s, n)
    ensures 1 <= k <= 3 && LeadingGroup(s, k) && IsGroups(s[k + 1..], n - 1)
  {
    if LeadingGroup(s, 1) && IsGroups(s[2..], n - 1) then 1
    else if LeadingGroup(s, 2) && IsGroups(s[3..], n - 1) then 2
    else 3
  }

  /** Groups begin with a digit and hold only digits and dots. */
  lemma {:induction false} GroupsChars(s: string, n: nat)
    requires IsGroups(s, n)
    ensures |s| > 0 && IsDigit(s[0])
    ensures forall i :: 0 <= i < |s| ==> IsDigit(s[i]) || s[i] == '.'
    decreases n
  {
    if n > 1 {
      var k := FirstGroupLength(s, n);
      GroupsChars(s[k + 1..], n - 1);
      assert s[..k][0] == s[0];
      forall i | 0 <= i < |s|
        ensures IsDigit(s[i]) || s[i] == '.'
      {
        if i < k {
          assert s[..k][i] == s[i];
        } else if i > k {
          assert s[k + 1..][i - k - 1] == s[i];
        }
      }
    }
  }

  /** The characters a slice copies from `t` keep their digit class. */
  lemma SliceDigits(line: string, i: nat, t: string, k: nat)
    requires i + |t| <= |line| && line[i..i + |t|] == t
    requires k <= |t| && AllDigits(t[..k])
    ensures forall j :: i <= j < i + k ==> IsDigit(line[j])
  {
    forall j | i <= j < i + k
      ensures IsDigit(line[j])
    {
      assert line[j] == line[i..i + |t|][j - i] == t[..k][j - i];
    }
  }

  lemma {:induction false} GroupsEndComplete(line: string, i: nat, t: string, n: nat)
    requires n >= 1 && IsGroups(t, n)
    requires i + |t| <= |line| && line[i..i + |t|] == t
    requires i + |t| == |line| || !IsDigit(line[i + |t|])
    ensures GroupsEnd(line, i, n) == Some(i + |t|)
    decreases n
  {
    if n == 1 {
      assert t[..|t|] == t;
      SliceDigits(line, i, t, |t|);
      DigitRunExact(line, i, |t|);
    } else {
      var k := FirstGroupLength(t, n);
      SliceDigits(line, i, t, k);
      assert line[i + k] == line[i..i + |t|][k] == t[k];
      DigitRunExact(line, i, k);
      assert line[i + k + 1..i + |t|] == t[k + 1..];
      GroupsEndComplete(line, i + k + 1, t[k + 1..], n - 1);
      assert GroupsEnd(line, i, n) == GroupsEnd(line, i + k + 1, n - 1);
    }
  }


  /** Whatever the matcher returns is a match of the pattern. */
  lemma MatchAtSound(line: string, p: nat)
    requires MatchAt(line, p).Some?
    ensures MatchesWith(line, p, SpaceRun(line, p + |Client|), MatchAt(line, p).value.0, MatchAt(line, p).value.1)
  {
    var start := p + |Client|;
    SpaceRunMaximal(line, start);
    GroupsEndSound(line, start + SpaceRun(line, start), Octets);
  }

  lemma DigitIsNotSpace(c: char)
    requires IsDigit(c)
    ensures !IsSpace(c)
  {
  }

  /** The matcher's result once its three scans are known. */
  lemma MatchAtFromScans(line: string, p: nat, w: nat, j: nat)
    requires p + |Client| <= |line| && line[p..p + |Client|] == Client
    requires SpaceRun(line, p + |Client|) == w && w >= 1
    requires GroupsEnd(line, p + |Client| + w, Octets) == Some(j)
    requires j < |line| && line[j] == '#'
    ensures MatchAt(line, p) == Some((line[p + |Client| + w..j], j + 1))
  {
    var start := p + |Client|;
    assert CaptureAt(line, start + w) == Some((line[start + w..j], j + 1));
    assert MatchAfterClient(line, start) == CaptureAt(line, start + w);
  }

  /** Every match of the pattern is what the matcher returns. */
  lemma MatchAtComplete(line: string, p: nat, w: nat, ip: string, e: nat)
    requires MatchesWith(line, p, w, ip, e)
    ensures MatchAt(line, p) == Some((ip, e))
  {
    var start := p + |Client|;
    var j := start + w + |ip|;
    GroupsChars(ip, Octets);
    assert line[start + w] == ip[0];
    DigitIsNotSpace(ip[0]);
    SpaceRunExact(line, start, w);
    GroupsEndComplete(line, start + w, ip, Octets);
    MatchAtFromScans(line, p, w, j);
  }

  /** Octet values are not range-checked: `client 999.999.999.999#` is a
      match wherever it occurs. */
  lemma OctetsNotRangeChecked(line: string, p: nat)
    requires p + 23 <= |line|
    requires line[p..p + 6] == Client && line[p + 6] == ' '
    requires line[p + 7..p + 22] == "999.999.999.999" && line[p + 22] == '#'
    ensures MatchAt(line, p) == Some(("999.999.999.999", p + 23))
  {
    var ip := "999.999.999.999";
    assert IsGroup("999");
    assert ip[4..] == "999.999.999";
    assert ip[4..][4..] == "999.999";
    assert ip[4..][4..][4..] == "999";
    assert LeadingGroup(ip[4..][4..], 3);
    assert IsGroups(ip[4..][4..], 2);
    assert LeadingGroup(ip[4..], 3);
    assert IsGroups(ip[4..], 3);
    assert LeadingGroup(ip, 3);
    assert IsIpText(ip);
    MatchAtComplete(line, p, 1, ip, p + 23);
  }

  // ---------------------------------------------------------------------
  // re.findall over one line

  /** The address matched at every position from `p` on, left to right:
      what a search that tried each position would report. */
  function IpsFrom(line: string, p: nat): seq<string>
    decreases |line| - p
  {
    if p >= |line| then []
    else
      (match MatchAt(line, p)
       case Some((ip, _)) => [ip]
       case None => [])
      + IpsFrom(line, p + 1)
  }

  /** `re.findall(ip_pattern, line[p:])`: after a match the scan resumes at
      its end, otherwise at the next position. */
  function FindAll(line: string, p: nat): seq<string>
    decreases |line| - p
  {
    if p >= |line| then []
    else
      match MatchAt(line, p)
      case Some((ip, e)) => [ip] + FindAll(line, e)
      case None => FindAll(line, p + 1)
  }

  /** A match starts with 'c', and no 'c' occurs after the first character
      of a match, so matches never overlap. */
  lemma NoMatchInside(line: string, p: nat, q: nat)
    requires MatchAt(line, p).Some? && p < q < MatchAt(line, p).value.1
    ensures MatchAt(line, q).None?
  {
    var w := SpaceRun(line, p + |Client|);
    var (ip, e) := MatchAt(line, p).value;
    MatchAtSound(line, p);
    GroupsChars(ip, Octets);
    var start := p + |Client| + w;
    if q < p + |Client| {
      assert line[q] == line[p..p + |Client|][q - p] == Client[q - p];
    } else if q < start {
      assert IsSpace(line[q]);
    } else if q < e - 1 {
      assert line[q] == line[start..e - 1][q - start] == ip[q - start];
    }
    assert line[q] != Client[0];
  }

  /** Positions where nothing matches contribute nothing. */
  lemma {:induction false} IpsFromSkip(line: string, q: nat, e: nat)
    requires q <= e <= |line|
    requires forall r :: q <= r < e ==> MatchAt(line, r).None?
    ensures IpsFrom(line, q) == IpsFrom(line, e)
    decreases e - q
  {
    if q < e {
      assert IpsFrom(line, q) == IpsFrom(line, q + 1);
      IpsFromSkip(line, q + 1, e);
    }
  }


  /** Jumping over each match loses nothing: `findall` reports the address
      of every position where the pattern matches, in order. */
  lemma {:induction false} FindAllIsIpsFrom(line: string, p: nat)
    ensures FindAll(line, p) == IpsFrom(line, p)
    decreases |line| - p
  {
    if p < |line| {
      match MatchAt(line, p)
      case None =>
        FindAllIsIpsFrom(line, p + 1);
      case Some((ip, e)) =>
        FindAllIsIpsFrom(line, e);
        forall r | p + 1 <= r < e
          ensures MatchAt(line, r).None?
        {
          NoMatchInside(line, p, r);
        }
        IpsFromSkip(line, p + 1, e);
    }
  }

  /** A line where the pattern matches nowhere contributes nothing. */
  lemma IpsFromNoMatch(line: string, p: nat)
    requires forall q :: p <= q < |line| ==> MatchAt(line, q).None?
    ensures IpsFrom(line, p) == []
  {
    if p < |line| {
      IpsFromSkip(line, p, |line|);
    }
  }


  /** Every match contributes its address. */
  lemma {:induction false} IpsFromHasMatch(line: string, p: nat, q: nat)
    requires p <= q && MatchAt(line, q).Some?
    ensures MatchAt(line, q).value.0 in IpsFrom(line, p)
    decreases q - p
  {
    if p < q {
      IpsFromHasMatch(line, p + 1, q);
    }
  }

  /** Everything reported is four dot-separated groups of digits. */
  lemma {:induction false} IpsFromAreAddresses(line: string, p: nat)
    ensures forall ip :: ip in IpsFrom(line, p) ==> IsIpText(ip)
    decreases |line| - p
  {
    if p < |line| {
      IpsFromAreAddresses(line, p + 1);
      if MatchAt(line, p).Some? {
        MatchAtSound(line, p);
      }
    }
  }

  // ---------------------------------------------------------------------
  // extract_ip_addresses

  /** `re.findall(ip_pattern, line)`. */
  function LineIps(line: string): seq<string> {
    FindAll(line, 0)
  }

  /** The addresses of all lines, line by line. */
  function AllIps(lines: seq<string>): seq<string> {
    ConcatMap(LineIps, lines)
  }

  /** `extract_ip_addresses(log_lines)`. */
  method ExtractIpAddresses(lines: seq<string>) returns (ips: seq<string>)
    ensures ips == AllIps(lines)
  {
    ips := [];
    for i := 0 to |lines|
      invariant ips == AllIps(lines[..i])
    {
      assert lines[..i + 1] == lines[..i] + [lines[i]];
      AllIpsSnoc(lines[..i], lines[i]);
      var matches := FindAll(lines[i], 0);
      ips := ips + matches;
    }
    assert lines[..|lines|] == lines;
  }

  /** One more line appends its `findall` result. */
  lemma AllIpsSnoc(lines: seq<string>, line: string)
    ensures AllIps(lines + [line]) == AllIps(lines) + FindAll(line, 0)
  {
    ConcatMapSnoc(LineIps, lines, line);
  }

  /** Addresses come out in line order: the result for a file is the result
      for its first part followed by the result for the rest. */
  lemma AllIpsConcat(a: seq<string>, b: seq<string>)
    ensures AllIps(a + b) == AllIps(a) + AllIps(b)
  {
    ConcatMapConcat(LineIps, a, b);
  }

  /** Every extracted entry is four dot-separated groups of one to three
      digits. */
  lemma {:induction false} AllIpsAreAddresses(lines: seq<string>)
    ensures forall ip :: ip in AllIps(lines) ==> IsIpText(ip)
  {
    if |lines| > 0 {
      var init, last := lines[..|lines| - 1], lines[|lines| - 1];
      assert lines == init + [last];
      AllIpsSnoc(init, last);
      AllIpsAreAddresses(init);
      FindAllIsIpsFrom(last, 0);
      IpsFromAreAddresses(last, 0);
    }
  }

  // ---------------------------------------------------------------------
  // count_ip_occurrences

  /** `Counter(ip_list)`: one key per distinct address, counting its
      occurrences. */
  function CountIps(ips: seq<string>): (counts: map<string, nat>)
    ensures forall ip :: ip in counts <==> ip in ips
    ensures forall ip :: ip in counts ==> counts[ip] == multiset(ips)[ip]
  {
    if |ips| == 0 then map[]
    else
      var init, x := ips[..|ips| - 1], ips[|ips| - 1];
      assert ips == init + [x];
      var m := CountIps(init);
      m[x := Count(m, x) + 1]
  }

  /** The distinct addresses in order of first occurrence: the key order of
      the counter. */
  function Distinct(ips: seq<string>): seq<string> {
    if |ips| == 0 then []
    else
      var init, x := ips[..|ips| - 1], ips[|ips| - 1];
      Distinct(init) + (if x in init then [] else [x])
  }

  lemma {:induction false} DistinctExact(ips: seq<string>)
    ensures forall ip :: ip in Distinct(ips) <==> ip in ips
    ensures forall i, j :: 0 <= i < j < |Distinct(ips)| ==> Distinct(ips)[i] != Distinct(ips)[j]
  {
    if |ips| > 0 {
      var init := ips[..|ips| - 1];
      DistinctExact(init);
      assert ips == init + [ips[|ips| - 1]];
    }
  }

  /** The index of the first occurrence of `ip` in `ips`. */
  function FirstIndex(ips: seq<string>, ip: string): (i: nat)
    requires ip in ips
    ensures i < |ips| && ips[i] == ip && forall j :: 0 <= j < i ==> ips[j] != ip
  {
    if ips[0] == ip then 0 else 1 + FirstIndex(ips[1..], ip)
  }

  /** Appending to a list does not move the first occurrence of an address
      already in it. */
  lemma FirstIndexSnoc(ips: seq<string>, x: string, y: string)
    requires y in ips
    ensures FirstIndex(ips + [x], y) == FirstIndex(ips, y)
  {
    var i := FirstIndex(ips, y);
    assert (ips + [x])[i] == y;
    assert forall j :: 0 <= j < i ==> (ips + [x])[j] == ips[j];
  }

  /** `Distinct` lists the addresses in the order of their first
      occurrence, which is the key order of a `Counter` built from the list. */
  lemma {:induction false} DistinctOrder(ips: seq<string>)
    ensures forall ip :: ip in Distinct(ips) ==> ip in ips
    ensures forall k, l :: 0 <= k < l < |Distinct(ips)| ==>
      FirstIndex(ips, Distinct(ips)[k]) < FirstIndex(ips, Distinct(ips)[l])
  {
    DistinctExact(ips);
    if |ips| > 0 {
      var init, x := ips[..|ips| - 1], ips[|ips| - 1];
      assert ips == init + [x];
      DistinctOrder(init);
      DistinctStep(init, x);
    }
  }

  /** The induction step of `DistinctOrder`: one more address keeps the
      earlier keys' first occurrences and, if new, comes last. */
  lemma DistinctStep(init: seq<string>, x: string)
    requires forall ip :: ip in Distinct(init) ==> ip in init
    requires forall k, l :: 0 <= k < l < |Distinct(init)| ==>
      FirstIndex(init, Distinct(init)[k]) < FirstIndex(init, Distinct(init)[l])
    ensures forall k, l :: 0 <= k < l < |Distinct(init + [x])| ==>
      FirstIndex(init + [x], Distinct(init + [x])[k]) < FirstIndex(init + [x], Distinct(init + [x])[l])
  {
    var ips, d := init + [x], Distinct(init);
    assert ips[..|ips| - 1] == init;
    forall k | 0 <= k < |d|
      ensures FirstIndex(ips, d[k]) == FirstIndex(init, d[k]) < |init|
    {
      FirstIndexSnoc(init, x, d[k]);
    }
    if x in init {
      assert Distinct(ips) == d;
    } else {
      assert Distinct(ips) == d + [x];
      assert FirstIndex(ips, x) == |init|;
    }
  }

  /** The sum of the counts of `keys`. */
  function SumOver(m: map<string, nat>, keys: seq<string>): nat {
    if |keys| == 0 then 0
    else SumOver(m, keys[..|keys| - 1]) + Count(m, keys[|keys| - 1])
  }

  lemma {:induction false} SumOverUpdate(m: map<string, nat>, keys: seq<string>, x: string, v: nat)
    requires forall i, j :: 0 <= i < j < |keys| ==> keys[i] != keys[j]
    ensures SumOver(m[x := v], keys) + (if x in keys then Count(m, x) else 0)
            == SumOver(m, keys) + (if x in keys then v else 0)
  {
    if |keys| > 0 {
      var init := keys[..|keys| - 1];
      SumOverUpdate(m, init, x, v);
      assert keys == init + [keys[|keys| - 1]];
      if keys[|keys| - 1] == x {
        assert x !in init by {
          forall i | 0 <= i < |init|
            ensures init[i] != x
          {
            assert keys[i] != keys[|keys| - 1];
          }
        }
      }
    }
  }

  /** The counts add up to the length of the list. */
  lemma {:induction false} CountsSumToLength(ips: seq<string>)
    ensures SumOver(CountIps(ips), Distinct(ips)) == |ips|
  {
    if |ips| > 0 {
      var init, x := ips[..|ips| - 1], ips[|ips| - 1];
      var m := CountIps(init);
      var m' := m[x := Count(m, x) + 1];
      assert CountIps(ips) == m';
      var keys := Distinct(init);
      CountsSumToLength(init);
      DistinctExact(init);
      SumOverUpdate(m, keys, x, Count(m, x) + 1);
      if x in init {
        assert Distinct(ips) == keys;
        assert SumOver(m', keys) == SumOver(m, keys) + 1;
      } else {
        var keys' := keys + [x];
        assert Distinct(ips) == keys';
        assert keys'[..|keys'| - 1] == keys;
        assert SumOver(m', keys') == SumOver(m', keys) + Count(m', x);
        assert Count(m', x) == 1;
      }
    }
  }

  // ---------------------------------------------------------------------
  // find_duplicate_ips

  /** `{ip: count for ip, count in ip_counts.items() if count > 1}`. */
  function FindDuplicates(counts: map<string, nat>): (dups: map<string, nat>)
    ensures forall ip :: ip in dups ==> ip in counts && dups[ip] == counts[ip] && dups[ip] > 1
    ensures forall ip :: ip in counts && counts[ip] > 1 ==> ip in dups
  {
    map ip | ip in counts && counts[ip] > 1 :: counts[ip]
  }

  /** `ip` occurs at two different places of the list. */
  ghost predicate AppearsTwice(ips: seq<string>, ip: string) {
    exists i, j :: 0 <= i < j < |ips| && ips[i] == ip && ips[j] == ip
  }

  lemma {:induction false} TwiceIffCount(ips: seq<string>, ip: string)
    ensures AppearsTwice(ips, ip) <==> multiset(ips)[ip] >= 2
  {
    if |ips| > 0 {
      var init, x := ips[..|ips| - 1], ips[|ips| - 1];
      assert ips == init + [x];
      TwiceIffCount(init, ip);
      if multiset(ips)[ip] >= 2 {
        if multiset(init)[ip] < 2 {
          assert ip in init;
          var i :| 0 <= i < |init| && init[i] == ip;
          assert ips[i] == ip && ips[|init|] == ip;
        } else {
          var i, j :| 0 <= i < j < |init| && init[i] == ip && init[j] == ip;
          assert ips[i] == ip && ips[j] == ip;
        }
      }
      if AppearsTwice(ips, ip) {
        var i, j :| 0 <= i < j < |ips| && ips[i] == ip && ips[j] == ip;
        if j < |init| {
          assert init[i] == ip && init[j] == ip;
        } else {
          assert init[i] == ip;
        }
      }
    }
  }

  /** The duplicates of an address list are exactly the addresses that
      occur at two different places, with their number of occurrences. */
  lemma DuplicatesAreRepeats(ips: seq<string>)
    ensures forall ip :: ip in FindDuplicates(CountIps(ips)) <==> AppearsTwice(ips, ip)
    ensures forall ip :: ip in FindDuplicates(CountIps(ips)) ==> FindDuplicates(CountIps(ips))[ip] == multiset(ips)[ip]
  {
    forall ip
      ensures ip in FindDuplicates(CountIps(ips)) <==> AppearsTwice(ips, ip)
    {
      TwiceIffCount(ips, ip);
    }
  }
}
