/** Reading a received message's headers: the first header with a given name,
    and the sender address taken from the `From` header with the regular
    expression `/<(.+)>/` (no flags), as JavaScript's `String.prototype.match`
    evaluates it: the leftmost start position wins, `.+` is greedy and `.`
    matches any character except a line terminator. */
module FromHeader {
  import opened Options
  import opened Sequences

  datatype Header = Header(name: string, value: string)

  /** `headers.find(header => header.name === name)?.value`: the value of the
      FIRST header whose name is exactly `name`, if there is one. */
  function HeaderValue(headers: seq<Header>, name: string): (r: Option<string>)
    ensures r.None? <==> forall k :: 0 <= k < |headers| ==> headers[k].name != name
    ensures r.Some? ==> exists k :: 0 <= k < |headers| && headers[k].name == name && r.value == headers[k].value &&
                                    forall q :: 0 <= q < k ==> headers[q].name != name
  {
    match FirstIndex(headers, (h: Header) => h.name == name)
    case None => None
    case Some(k) => Some(headers[k].value)
  }

  /** The line terminators of ECMAScript, which `.` does not match. */
  predicate IsLineTerminator(c: char)
  {
    c == '\n' || c == '\r' || c == '\U{2028}' || c == '\U{2029}'
  }

  predicate NoLineTerminators(s: string)
  {
    forall k :: 0 <= k < |s| ==> !IsLineTerminator(s[k])
  }

  /** `/<(.+)>/` matches at position `p` with a capture of length `n`: a `<` at
      `p`, then `n >= 1` characters `.` accepts, then a `>`. */
  predicate MatchesAt(v: string, p: nat, n: nat)
  {
    && p + 1 + n < |v|
    && v[p] == '<'
    && n >= 1
    && v[p + 1 + n] == '>'
    && NoLineTerminators(v[p + 1..p + 1 + n])
  }

  /** The end of the run of characters `.` accepts that begins at `from`: the
      first line terminator at or after `from`, or the end of `v`. */
  function DotRunEnd(v: string, from: nat): (e: nat)
    requires from <= |v|
    ensures from <= e <= |v|
    ensures forall k :: from <= k < e ==> !IsLineTerminator(v[k])
    ensures e < |v| ==> IsLineTerminator(v[e])
    decreases |v| - from
  {
    if from == |v| || IsLineTerminator(v[from]) then from else DotRunEnd(v, from + 1)
  }

  /** The largest index in `[lo, hi)` holding `c`, if any. */
  function LastIndexIn(v: string, c: char, lo: nat, hi: nat): (r: Option<nat>)
    requires hi <= |v|
    ensures r.Some? ==> lo <= r.value < hi && v[r.value] == c
    ensures r.Some? ==> forall k :: r.value < k < hi ==> v[k] != c
    ensures r.None? ==> forall k :: lo <= k < hi ==> v[k] != c
    decreases hi
  {
    if hi <= lo then None
    else if v[hi - 1] == c then Some(hi - 1)
    else LastIndexIn(v, c, lo, hi - 1)
  }

  /** The smallest index in `[lo, |v|)` holding `c`, if any. */
  function FirstIndexFrom(v: string, c: char, lo: nat): (r: Option<nat>)
    requires lo <= |v|
    ensures r.Some? ==> lo <= r.value < |v| && v[r.value] == c
    ensures r.Some? ==> forall k :: lo <= k < r.value ==> v[k] != c
    ensures r.None? ==> forall k :: lo <= k < |v| ==> v[k] != c
    decreases |v| - lo
  {
    if lo == |v| then None
    else if v[lo] == c then Some(lo)
    else FirstIndexFrom(v, c, lo + 1)
  }

  /** The capture of the match that starts at `p`, if one does: greedy `.+`
      backs off from the end of its run to the last `>` it can stop before. */
  function CaptureAt(v: string, p: nat): (r: Option<string>)
    requires p < |v|
    ensures r.Some? ==> MatchesAt(v, p, |r.value|) && r.value == v[p + 1..p + 1 + |r.value|]
    ensures forall n: nat :: MatchesAt(v, p, n) ==> r.Some? && n <= |r.value|
  {
    if v[p] != '<' then None
    else
      var e := DotRunEnd(v, p + 1);
      MatchWithinRun(v, p);
      match LastIndexIn(v, '>', p + 2, e)
      case None => None
      case Some(m) =>
        assert NoLineTerminators(v[p + 1..m]) by {
          assert forall k :: p + 1 <= k < m ==> v[p + 1..m][k - (p + 1)] == v[k];
        }
        Some(v[p + 1..m])
  }

  /** A match at `p` ends before the first line terminator after `p`. */
  lemma MatchWithinRun(v: string, p: nat)
    requires p < |v|
    ensures forall n: nat :: MatchesAt(v, p, n) ==> p + 1 + n < DotRunEnd(v, p + 1)
  {
    forall n: nat | MatchesAt(v, p, n) ensures p + 1 + n < DotRunEnd(v, p + 1) {
      assert forall k :: p + 1 <= k < p + 1 + n ==> v[p + 1..p + 1 + n][k - (p + 1)] == v[k];
    }
  }

  /** The leftmost position at or after `from` where the pattern matches. */
  function SearchFrom(v: string, from: nat): (r: Option<nat>)
    requires from <= |v|
    ensures r.Some? ==> from <= r.value < |v| && CaptureAt(v, r.value).Some?
    ensures r.Some? ==> forall q :: from <= q < r.value ==> CaptureAt(v, q).None?
    ensures r.None? ==> forall q :: from <= q < |v| ==> CaptureAt(v, q).None?
    decreases |v| - from
  {
    if from == |v| then None
    else if CaptureAt(v, from).Some? then Some(from)
    else SearchFrom(v, from + 1)
  }

  /** `value.match(/<(.+)>/)?.[1]`. */
  function Capture(v: string): Option<string>
  {
    match SearchFrom(v, 0)
    case None => None
    case Some(p) => CaptureAt(v, p)
  }

  /** The capture is none exactly when the pattern matches nowhere; otherwise
      it is that of the leftmost match, and the longest match there. */
  lemma CaptureSpec(v: string)
    ensures Capture(v).None? <==> forall p: nat, n: nat :: !MatchesAt(v, p, n)
    ensures Capture(v).Some? ==> exists p: nat ::
      && MatchesAt(v, p, |Capture(v).value|) && Capture(v).value == v[p + 1..p + 1 + |Capture(v).value|]
      && (forall q: nat, n: nat :: q < p ==> !MatchesAt(v, q, n))
      && (forall n: nat :: MatchesAt(v, p, n) ==> n <= |Capture(v).value|)
  {
    match SearchFrom(v, 0)
    case None =>
      forall p: nat, n: nat | p < |v| ensures !MatchesAt(v, p, n) {
        assert CaptureAt(v, p).None?;
      }
    case Some(p) =>
      forall q: nat, n: nat | q < p ensures !MatchesAt(v, q, n) {
        assert CaptureAt(v, q).None?;
      }
  }

  /** `value.match(/<(.+)>/)?.[1] || value`. */
  function AddressOf(value: string): string
  {
    match Capture(value)
    case Some(c) => c
    case None => value
  }

  /** The capture is never empty, so the whole value is used exactly when the
      pattern matches nowhere, and otherwise a non-empty captured part of it. */
  lemma AddressOfSpec(value: string)
    ensures (forall p: nat, n: nat :: !MatchesAt(value, p, n)) ==> AddressOf(value) == value
    ensures (exists p: nat, n: nat :: MatchesAt(value, p, n)) ==>
      var r := AddressOf(value);
      |r| >= 1 && exists p: nat :: MatchesAt(value, p, |r|) && r == value[p + 1..p + 1 + |r|]
  {
    CaptureSpec(value);
  }

  /** The sender of a message: `null` without a `From` header, otherwise the
      address read from the FIRST header named exactly `From`. */
  function SenderAddress(headers: seq<Header>): (r: Option<string>)
    ensures r.None? <==> forall k :: 0 <= k < |headers| ==> headers[k].name != "From"
    ensures r.Some? ==> exists k :: 0 <= k < |headers| && headers[k].name == "From" &&
                                    r.value == AddressOf(headers[k].value) &&
                                    forall q :: 0 <= q < k ==> headers[q].name != "From"
  {
    match HeaderValue(headers, "From")
    case None => None
    case Some(v) => Some(AddressOf(v))
  }

  /** The match in closed form, for a value without line terminators: with
      `i` the first `<` and `j` the last `>`, the pattern matches exactly when
      `j >= i + 2`, and the capture is what lies strictly between them. */
  function BracketedPart(v: string): (r: Option<string>)
  {
    match (FirstIndexFrom(v, '<', 0), LastIndexIn(v, '>', 0, |v|))
    case (Some(i), Some(j)) => if j >= i + 2 then Some(v[i + 1..j]) else None
    case _ => None
  }

  lemma DotRunToEnd(v: string, from: nat)
    requires from <= |v| && NoLineTerminators(v)
    ensures DotRunEnd(v, from) == |v|
  {
  }

  /** Restricting the search for the last `>` to a suffix finds the same one,
      if it lies in that suffix. */
  lemma LastIndexInSuffix(v: string, c: char, lo: nat)
    ensures LastIndexIn(v, c, lo, |v|) ==
      match LastIndexIn(v, c, 0, |v|)
      case Some(j) => if j >= lo then Some(j) else None
      case None => None
  {
    var all := LastIndexIn(v, c, 0, |v|);
    var r := LastIndexIn(v, c, lo, |v|);
    if r.Some? {
      assert v[r.value] == c;
    }
  }

  /** Without line terminators, the match at `p` runs to the last `>` of the
      whole value. */
  lemma CaptureAtOneLine(v: string, p: nat)
    requires NoLineTerminators(v) && p < |v|
    ensures CaptureAt(v, p) ==
      match LastIndexIn(v, '>', 0, |v|)
      case Some(j) => if v[p] == '<' && j >= p + 2 then Some(v[p + 1..j]) else None
      case None => None
  {
    if v[p] == '<' {
      DotRunToEnd(v, p + 1);
      LastIndexInSuffix(v, '>', p + 2);
    }
  }

  lemma {:induction false} CaptureClosedForm(v: string)
    requires NoLineTerminators(v)
    ensures Capture(v) == BracketedPart(v)
  {
    var last := LastIndexIn(v, '>', 0, |v|);
    forall p | 0 <= p < |v| ensures CaptureAt(v, p).Some? ==> v[p] == '<' && last.Some? && last.value >= p + 2 {
      CaptureAtOneLine(v, p);
    }
    var search := SearchFrom(v, 0);
    match FirstIndexFrom(v, '<', 0)
    case None =>
      assert search.None?;
    case Some(i) =>
      if last.Some? && last.value >= i + 2 {
        CaptureAtOneLine(v, i);
        assert search == Some(i);
        assert Capture(v) == CaptureAt(v, i);
      } else {
        assert search.None?;
      }
  }

  /** The display-name form `Name <address>`: the address comes back whatever
      it contains, as long as the name has no `<` and the address is
      non-empty and on one line. */
  lemma {:induction false} DisplayNameForm(name: string, address: string)
    requires forall k :: 0 <= k < |name| ==> name[k] != '<'
    requires |address| >= 1 && NoLineTerminators(address)
    ensures AddressOf(name + "<" + address + ">") == address
  {
    var v := name + "<" + address + ">";
    var i := |name|;
    assert v[i] == '<';
    assert forall k :: 0 <= k < i ==> v[k] == name[k];
    assert forall k :: i + 1 <= k < |v| - 1 ==> v[k] == address[k - i - 1];
    assert v[i + 1..|v| - 1] == address;
    DotRunToEndAfter(v, i + 1);
    assert MatchesAt(v, i, |address|);
    assert CaptureAt(v, i) == Some(address);
    assert SearchFrom(v, 0) == Some(i);
  }

  /** From `from` on, `v` has no line terminator except possibly a final `>`. */
  lemma DotRunToEndAfter(v: string, from: nat)
    requires 0 < from <= |v| && v[|v| - 1] == '>'
    requires forall k :: from <= k < |v| - 1 ==> !IsLineTerminator(v[k])
    ensures DotRunEnd(v, from) == |v|
  {
  }

  /** A bare address without `<` is used whole. */
  lemma BareAddress(value: string)
    requires forall k :: 0 <= k < |value| ==> value[k] != '<'
    ensures AddressOf(value) == value
  {
    assert SearchFrom(value, 0).None?;
  }

  /** The sender in closed form: when the first `From` header's value `v` is
      on one line, the sender is what lies between the first `<` and the last
      `>` of `v` if those are at least two apart, and `v` itself otherwise. */
  lemma SenderAddressClosedForm(headers: seq<Header>, k: nat)
    requires k < |headers| && headers[k].name == "From"
    requires forall q :: 0 <= q < k ==> headers[q].name != "From"
    requires NoLineTerminators(headers[k].value)
    ensures SenderAddress(headers) ==
      match BracketedPart(headers[k].value)
      case Some(c) => Some(c)
      case None => Some(headers[k].value)
  {
    CaptureClosedForm(headers[k].value);
  }
}
