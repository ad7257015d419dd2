/**
  Byte paths, their rendered (percent-encoded) form, and their components.

  `DisplayPath` prints a path; `DecodeChangePath` is the strict parser used on change manifests.
  A path is the raw byte string of the operating system; nothing here assumes UTF-8.
 */
module PathCodec {
  import opened Splitting

  type byte = b: int | 0 <= b < 256
  type Bytes = seq<byte>

  const SLASH: byte := 47
  const DOT: byte := 46
  const PERCENT: byte := 37
  const SPACE: byte := 32

  // ---------------------------------------------------------------------------------------------
  // Printing
  // ---------------------------------------------------------------------------------------------

  /** ASCII graphic characters are `!` (33) to `~` (126). */
  predicate IsLiteral(b: byte) {
    b == SLASH || (33 <= b <= 126 && b != PERCENT) || b == SPACE
  }

  /** The uppercase hexadecimal digit of a nibble. */
  function HexDigit(n: int): (d: byte)
    requires 0 <= n < 16
    ensures HexValue(d) == Some(n)
  {
    if n < 10 then 48 + n else 55 + n
  }

  function EscapeByte(b: byte): Bytes {
    if IsLiteral(b) then [b] else [PERCENT, HexDigit(b / 16), HexDigit(b % 16)]
  }

  /** What `display_path` prints. */
  function Rendered(path: Bytes): Bytes {
    if path == [] then [] else EscapeByte(path[0]) + Rendered(path[1..])
  }

  lemma {:induction false} RenderedConcat(p: Bytes, q: Bytes)
    ensures Rendered(p + q) == Rendered(p) + Rendered(q)
  {
    if p == [] {
      assert p + q == q;
    } else {
      assert (p + q)[1..] == p[1..] + q;
      RenderedConcat(p[1..], q);
    }
  }

  ghost predicate IsRaw(b: byte) {
    b == 47 || b == 32 || (33 <= b < 127 && b != 37)
  }

  /** The printed form, byte by byte: slash, space and the graphic characters but `%` stay, and any other
      byte becomes `%` and two uppercase hexadecimal digits. */
  ghost predicate IsPrinted(path: Bytes, output: Bytes) {
    if path == [] then output == []
    else if IsRaw(path[0]) then output != [] && output[0] == path[0] && IsPrinted(path[1..], output[1..])
    else
      && |output| >= 3
      && output[0] == 37
      && output[1] == "0123456789ABCDEF"[path[0] / 16] as int
      && output[2] == "0123456789ABCDEF"[path[0] % 16] as int
      && IsPrinted(path[1..], output[3..])
  }

  lemma DigitMeans(n: int)
    requires 0 <= n < 16
    ensures HexDigit(n) == "0123456789ABCDEF"[n] as int
  {
  }

  lemma {:induction false} PrintedMeans(path: Bytes, output: Bytes)
    ensures IsPrinted(path, output) <==> output == Rendered(path)
  {
    hide HexDigit;
    if path != [] {
      var n := if IsRaw(path[0]) then 1 else 3;
      if |output| >= n {
        PrintedMeans(path[1..], output[n..]);
        assert output == output[..n] + output[n..];
      }
      DigitMeans(path[0] / 16);
      DigitMeans(path[0] % 16);
      assert Rendered(path)[n..] == Rendered(path[1..]);
      assert EscapeByte(path[0]) == if n == 1 then [path[0]] else [37, HexDigit(path[0] / 16), HexDigit(path[0] % 16)];
    }
  }

  method DisplayPath(path: Bytes) returns (output: Bytes)
    ensures output == Rendered(path)
    ensures IsPrinted(path, output)
  {
    hide IsPrinted;
    output := [];
    for i := 0 to |path|
      invariant output == Rendered(path[..i])
    {
      assert path[..i + 1] == path[..i] + [path[i]];
      RenderedConcat(path[..i], [path[i]]);
      if IsLiteral(path[i]) {
        output := output + [path[i]];
      } else {
        output := output + [PERCENT];
        output := output + [HexDigit(path[i] / 16), HexDigit(path[i] % 16)];
      }
    }
    assert path[..|path|] == path;
    PrintedMeans(path, output);
  }

  // ---------------------------------------------------------------------------------------------
  // Components
  // ---------------------------------------------------------------------------------------------

  /** The maximal slash-free pieces of a path, empty ones included. */
  function Pieces(path: Bytes): (ps: seq<Bytes>)
    ensures |ps| > 0
  {
    Split(path, SLASH)
  }

  /** Empty pieces and interior `.` pieces are not components. */
  function Kept(pieces: seq<Bytes>): (cs: seq<Bytes>)
    ensures forall i :: 0 <= i < |cs| ==> cs[i] in pieces && cs[i] != [] && cs[i] != [DOT]
  {
    if pieces == [] then []
    else if pieces[0] == [] || pieces[0] == [DOT] then Kept(pieces[1..])
    else [pieces[0]] + Kept(pieces[1..])
  }

  function Components(path: Bytes): seq<Bytes> {
    Kept(Pieces(path))
  }

  /** Non-empty, relative, no leading `.` component and no `..` component. */
  predicate IsValidCandidate(path: Bytes) {
    && path != []
    && path[0] != SLASH
    && Pieces(path)[0] != [DOT]
    && [DOT, DOT] !in Pieces(path)
  }

  /** The same on bytes: not empty, not absolute, not `.` or anything below it, and no segment between
      slashes or ends is `..`. */
  ghost predicate IsPlainRelative(path: Bytes) {
    && path != [] && path[0] != 47
    && path != [46] && !(|path| >= 2 && path[0] == 46 && path[1] == 47)
    && forall i, j :: IsSegment(path, 47, i, j) ==> path[i..j] != [46, 46]
  }

  lemma CandidateMeans(path: Bytes)
    ensures IsValidCandidate(path) <==> IsPlainRelative(path)
  {
    hide Split, IsSegment;
    SplitMeans(path, SLASH, [DOT, DOT]);
    LeadingDot(path);
    assert forall i, j :: IsSegment(path, 47, i, j) ==> IsSegment(path, SLASH, i, j);
  }

  lemma LeadingDot(path: Bytes)
    ensures Pieces(path)[0] == [DOT] <==> path == [46] || (|path| >= 2 && path[0] == 46 && path[1] == 47)
  {
    hide Split;
    FirstPart(path, SLASH);
    var n := |Pieces(path)[0]|;
    if path == [46] || (|path| >= 2 && path[0] == 46 && path[1] == 47) {
      assert path[0..1] == [46];
      FromStart(path, SLASH, 1, n);
    } else if n == 1 {
      assert path[..1] == [path[0]];
    }
  }

  // The components are determined by what they are without a slash, and on both sides of one.

  lemma ComponentsOfFree(path: Bytes)
    requires SLASH !in path
    ensures Components(path) == if path == [] || path == [46] then [] else [path]
  {
    SplitOfFree(path, SLASH);
    var ps := Pieces(path);
    assert ps == [path];
    assert Kept(ps[1..]) == [];
  }

  lemma ComponentsAround(a: Bytes, b: Bytes)
    ensures Components(a + [47] + b) == Components(a) + Components(b)
  {
    SplitAround(a, b, SLASH);
    assert a + [47] + b == a + [SLASH] + b;
    KeptConcat(Pieces(a), Pieces(b));
  }

  lemma {:induction false} KeptConcat(a: seq<Bytes>, b: seq<Bytes>)
    ensures Kept(a + b) == Kept(a) + Kept(b)
  {
    if a == [] {
      assert a + b == b;
    } else {
      assert (a + b)[1..] == a[1..] + b;
      KeptConcat(a[1..], b);
    }
  }

  /** A name that a directory entry can have. */
  predicate IsName(name: Bytes) {
    name != [] && name != [DOT] && name != [DOT, DOT] && SLASH !in name && 0 !in name
  }

  predicate AreNames(names: seq<Bytes>) {
    forall i :: 0 <= i < |names| ==> IsName(names[i])
  }

  /** The canonical spelling of a component sequence: one slash between neighbours. */
  function Joined(names: seq<Bytes>): Bytes {
    if names == [] then []
    else if |names| == 1 then names[0]
    else names[0] + [SLASH] + Joined(names[1..])
  }

  lemma {:induction false} PiecesOfJoined(names: seq<Bytes>)
    requires names != [] && AreNames(names)
    ensures Pieces(Joined(names)) == names
  {
    if |names| == 1 {
      SplitOfFree(names[0], SLASH);
    } else {
      SplitOfFree(names[0], SLASH);
      SplitAround(names[0], Joined(names[1..]), SLASH);
      PiecesOfJoined(names[1..]);
    }
  }

  lemma {:induction false} KeptAll(names: seq<Bytes>)
    requires AreNames(names)
    ensures Kept(names) == names
  {
    if names != [] {
      assert IsName(names[0]);
      assert AreNames(names[1..]);
      KeptAll(names[1..]);
    }
  }

  lemma {:induction false} JoinedIsNulFree(names: seq<Bytes>)
    requires AreNames(names)
    ensures 0 !in Joined(names)
  {
    if |names| > 1 {
      assert IsName(names[0]);
      JoinedIsNulFree(names[1..]);
    }
  }

  /** Splitting the canonical spelling of real names gives the names back, and it is a valid
      candidate path. */
  lemma {:induction false} ComponentsOfJoined(names: seq<Bytes>)
    requires names != [] && AreNames(names)
    ensures Components(Joined(names)) == names
    ensures IsValidCandidate(Joined(names)) && 0 !in Joined(names)
  {
    PiecesOfJoined(names);
    KeptAll(names);
    JoinedIsNulFree(names);
    assert IsName(names[0]);
    assert Joined(names)[0] == names[0][0];
    forall i | 0 <= i < |names|
      ensures names[i] != [DOT, DOT]
    {
      assert IsName(names[i]);
    }
  }

  lemma {:induction false} FirstPieceKept(pieces: seq<Bytes>)
    requires pieces != [] && pieces[0] != [] && pieces[0] != [DOT]
    ensures Kept(pieces) != []
  {
    assert Kept(pieces)[0] == pieces[0];
  }

  /** Every accepted path has at least one component, and all of them are real names. */
  lemma CandidateComponents(path: Bytes)
    requires IsValidCandidate(path) && 0 !in path
    ensures Components(path) != [] && AreNames(Components(path))
  {
    var ps := Pieces(path);
    assert ps[0] != [];
    FirstPieceKept(ps);
    var cs := Kept(ps);
    forall i | 0 <= i < |cs|
      ensures IsName(cs[i])
    {
      SplitMeans(path, SLASH, cs[i]);
      var j, k :| IsSegment(path, SLASH, j, k) && path[j..k] == cs[i];
    }
  }

  // ---------------------------------------------------------------------------------------------
  // Parsing
  // ---------------------------------------------------------------------------------------------

  datatype Option<+T> = None | Some(value: T)

  datatype DecodeError = Truncated | BadEscape | NonAscii | ContainsNul | NotCanonical
  datatype DecodeResult = Decoded(path: Bytes) | Refused(error: DecodeError)

  /** Only `0`-`9` and uppercase `A`-`F` are hexadecimal digits here. */
  function HexValue(b: byte): (v: Option<int>)
    ensures v.Some? ==> 0 <= v.value < 16
  {
    if 48 <= b <= 57 then Some(b - 48)
    else if 65 <= b <= 70 then Some(b - 55)
    else None
  }

  /** The bytes that a rendered string denotes, canonical or not. */
  function Unescaped(s: Bytes): Option<Bytes> {
    if s == [] then Some([])
    else if s[0] == PERCENT then
      if |s| < 3 then None
      else
        match (HexValue(s[1]), HexValue(s[2]), Unescaped(s[3..]))
        case (Some(high), Some(low), Some(rest)) => Some([high * 16 + low] + rest)
        case _ => None
    else if s[0] < 128 then
      match Unescaped(s[1..])
      case Some(rest) => Some([s[0]] + rest)
      case None => None
    else None
  }

  function Prefixed(start: Bytes, rest: Option<Bytes>): (r: Option<Bytes>)
    ensures start == [] ==> r == rest
    ensures rest == Some([]) ==> r == Some(start)
  {
    match rest
    case Some(bytes) =>
      assert start == [] ==> start + bytes == bytes;
      assert bytes == [] ==> start + bytes == start;
      Some(start + bytes)
    case None => None
  }

  lemma PrefixedTwice(a: Bytes, b: Bytes, rest: Option<Bytes>)
    ensures Prefixed(a, Prefixed(b, rest)) == Prefixed(a + b, rest)
  {
    if rest.Some? {
      assert a + (b + rest.value) == (a + b) + rest.value;
    }
  }

  /** The printer is undone by unescaping, whatever the bytes. */
  lemma {:induction false} UnescapedRendered(p: Bytes)
    ensures Unescaped(Rendered(p)) == Some(p)
  {
    if p != [] {
      UnescapedRendered(p[1..]);
      var r := Rendered(p);
      var tail := Rendered(p[1..]);
      assert [p[0]] + p[1..] == p;
      if IsLiteral(p[0]) {
        assert r == [p[0]] + tail;
        assert r[1..] == tail;
      } else {
        var hi, lo := HexDigit(p[0] / 16), HexDigit(p[0] % 16);
        assert r == [PERCENT, hi, lo] + tail;
        assert r[3..] == tail;
      }
    }
  }

  /** Distinct paths never share a rendered form. */
  lemma RenderedIsInjective(p: Bytes, q: Bytes)
    requires Rendered(p) == Rendered(q)
    ensures p == q
  {
    UnescapedRendered(p);
    UnescapedRendered(q);
  }

  /** What the manifest parser accepts as the rendered form of `path`. */
  predicate Accepts(rendered: Bytes, path: Bytes) {
    Rendered(path) == rendered && 0 !in path && IsValidCandidate(path)
  }

  ghost predicate IsPrintedCandidate(rendered: Bytes, path: Bytes) {
    IsPrinted(path, rendered) && 0 !in path && IsPlainRelative(path)
  }

  lemma AcceptsMeans(rendered: Bytes, path: Bytes)
    ensures Accepts(rendered, path) <==> IsPrintedCandidate(rendered, path)
  {
    hide IsPrinted, Rendered, IsPlainRelative, IsValidCandidate;
    PrintedMeans(path, rendered);
    CandidateMeans(path);
  }

  /**
    The strict parser. It accepts exactly the printed forms of valid NUL-free candidate paths
    and returns the very bytes that were printed.
   */
  method DecodeChangePath(rendered: Bytes) returns (r: DecodeResult)
    ensures forall path :: r == Decoded(path) <==> Accepts(rendered, path)
    ensures forall path :: r == Decoded(path) <==> IsPrintedCandidate(rendered, path)
  {
    hide Rendered, Pieces, Kept, EscapeByte, IsLiteral, IsPrintedCandidate, IsPrinted;
    forall path
      ensures Accepts(rendered, path) <==> IsPrintedCandidate(rendered, path)
    {
      AcceptsMeans(rendered, path);
    }
    forall path | Accepts(rendered, path)
      ensures Unescaped(rendered) == Some(path)
    {
      UnescapedRendered(path);
    }
    var bytes: Bytes := [];
    var index := 0;
    assert rendered[0..] == rendered;
    while index < |rendered|
      invariant 0 <= index <= |rendered|
      invariant Unescaped(rendered) == Prefixed(bytes, Unescaped(rendered[index..]))
    {
      var here := rendered[index..];
      if rendered[index] == PERCENT {
        if index + 2 >= |rendered| {
          return Refused(Truncated);
        }
        var high, low := HexValue(rendered[index + 1]), HexValue(rendered[index + 2]);
        if high.None? || low.None? {
          return Refused(BadEscape);
        }
        assert here[3..] == rendered[index + 3..];
        PrefixedTwice(bytes, [high.value * 16 + low.value], Unescaped(here[3..]));
        bytes := bytes + [high.value * 16 + low.value];
        index := index + 3;
      } else if rendered[index] < 128 {
        assert here[1..] == rendered[index + 1..];
        PrefixedTwice(bytes, [rendered[index]], Unescaped(here[1..]));
        bytes := bytes + [rendered[index]];
        index := index + 1;
      } else {
        return Refused(NonAscii);
      }
    }
    if 0 in bytes {
      return Refused(ContainsNul);
    }
    var again := DisplayPath(bytes);
    if !IsValidCandidate(bytes) || again != rendered {
      return Refused(NotCanonical);
    }
    UnescapedRendered(bytes);
    r := Decoded(bytes);
  }

  /** The end-to-end codec law on real names: decoding the printed form of a path that a
      directory walk can yield returns that path and its components. */
  lemma DecodeOfWalkedPath(names: seq<Bytes>, path: Bytes)
    requires names != [] && AreNames(names)
    ensures Accepts(Rendered(Joined(names)), path) <==> path == Joined(names)
    ensures Components(Joined(names)) == names
  {
    ComponentsOfJoined(names);
    if Accepts(Rendered(Joined(names)), path) {
      RenderedIsInjective(path, Joined(names));
    }
  }

  /** The code tells rendered paths apart, not files: a doubled slash survives printing and parsing, so
      two different accepted paths have the same components. */
  lemma DoubledSlashIsAnotherPath(p: Bytes, q: Bytes)
    requires IsName(p) && IsName(q)
    ensures var once, twice := p + [SLASH] + q, p + [SLASH] + ([SLASH] + q);
            && Accepts(Rendered(once), once) && Accepts(Rendered(twice), twice)
            && Rendered(once) != Rendered(twice) && Components(once) == Components(twice)
  {
    hide Rendered, Split, Kept;
    var once, twice := p + [SLASH] + q, p + [SLASH] + ([SLASH] + q);
    assert |once| != |twice|;
    if Rendered(once) == Rendered(twice) {
      RenderedIsInjective(once, twice);
    }
    SplitOfFree(p, SLASH);
    SplitOfFree(q, SLASH);
    SplitAround(p, q, SLASH);
    SplitAround(p, [SLASH] + q, SLASH);
    SplitOfFree([], SLASH);
    SplitAround([], q, SLASH);
    assert [] + [SLASH] + q == [SLASH] + q;
    assert Pieces(once) == [p, q] && Pieces(twice) == [p, [], q];
    KeptSkipsEmpty(p, q);
  }

  lemma KeptSkipsEmpty(p: Bytes, q: Bytes)
    ensures Kept([p, [], q]) == Kept([p, q])
  {
    assert [p, [], q][1..] == [[], q] && [[], q][1..] == [q] && [p, q][1..] == [q];
  }
}
