// compiler/src/path_security.c: the normaliser over its buffers, and the prefix test.
module PathMachine {
  import opened Paths
  import opened Text

  // ---- The normaliser ----

  /** The C string that starts at position at. */
  function StringAt(buf: seq<char>, at: nat): (s: string)
    requires at <= |buf|
    decreases |buf| - at
  {
    if at == |buf| || buf[at] == NUL then "" else [buf[at]] + StringAt(buf, at + 1)
  }

  /** text stands at position at, followed by its terminator. */
  ghost predicate Holds(buf: seq<char>, at: nat, text: string) {
    && at + |text| < |buf|
    && IsCString(text)
    && buf[at..at + |text|] == text
    && buf[at + |text|] == NUL
  }

  lemma {:induction false} HeldString(buf: seq<char>, at: nat, text: string)
    requires Holds(buf, at, text)
    ensures at + |text| < |buf| && StringAt(buf, at) == text
    decreases |text|
  {
    if text != "" {
      assert buf[at] == buf[at..at + |text|][0] == text[0];
      assert buf[at + 1..at + |text|] == text[1..];
      HeldString(buf, at + 1, text[1..]);
    }
  }

  lemma HoldsUnchanged(before: seq<char>, after: seq<char>, at: nat, text: string)
    requires Holds(before, at, text) && at + |text| < |after|
    requires before[..at + |text| + 1] == after[..at + |text| + 1]
    ensures Holds(after, at, text)
  {
    var n := at + |text|;
    assert after[n] == after[..n + 1][n] == before[..n + 1][n] == before[n];
    assert after[at..n] == after[..n + 1][at..n] == before[..n + 1][at..n] == before[at..n];
  }

  /** What is still to be read: rest stands at p and ends with the buffer. */
  ghost predicate Rest(buf: seq<char>, p: nat, rest: string) {
    Holds(buf, p, rest) && p + |rest| + 1 == |buf|
  }

  lemma RestFrom(buf: seq<char>, p: nat, rest: string, k: nat)
    requires Rest(buf, p, rest) && k <= |rest|
    ensures Rest(buf, p + k, rest[k..])
    ensures k < |rest| ==> buf[p + k] == rest[k] != NUL
    ensures k == |rest| ==> buf[p + k] == NUL
  {
    assert rest[k..] == buf[p + k..p + |rest|];
    assert forall c <- rest[k..] :: c in rest;
    if k < |rest| {
      assert buf[p..p + |rest|][k] == buf[p + k];
    }
  }

  /** The component offsets: each holds its text, terminated before p or by the end of the buffer. */
  ghost predicate Offsets(buf: seq<char>, offsets: seq<nat>, held: seq<string>, p: nat) {
    && |held| <= CAP == |offsets|
    && forall i :: 0 <= i < |held| ==>
         && Holds(buf, offsets[i], held[i])
         && var end := offsets[i] + |held[i]|; end < p || end + 1 == p + 1 == |buf|
  }

  method SkipSlashes(buf: array<char>, p: nat, ghost rest: string) returns (q: nat, ghost left: string)
    requires Rest(buf[..], p, rest)
    ensures p <= q < buf.Length && Rest(buf[..], q, left) && Components(left) == Components(rest) && |left| <= |rest|
    ensures left == "" || left[0] != '/'
  {
    hide Holds, PieceEnd;
    q, left := p, rest;
    RestFrom(buf[..], q, left, 0);
    assert left[0..] == left;
    while buf[q] == '/'
      invariant p <= q && Rest(buf[..], q, left) && Components(left) == Components(rest) && |left| <= |rest|
      invariant q < buf.Length && buf[q] == if left == "" then NUL else left[0]
      decreases |left|
    {
      RestFrom(buf[..], q, left, 1);
      q, left := q + 1, left[1..];
      RestFrom(buf[..], q, left, 0);
    }
  }

  /** Terminate the component that starts at p. */
  method Cut(buf: array<char>, p: nat, ghost rest: string) returns (q: nat, ghost piece: string, ghost left: string)
    requires Rest(buf[..], p, rest) && rest != "" && rest[0] != '/'
    modifies buf
    ensures p < q < buf.Length && buf[..p] == old(buf[..p]) && |left| < |rest|
    ensures Holds(buf[..], p, piece) && Rest(buf[..], q, left)
    ensures p + |piece| < q || p + |piece| + 1 == q + 1 == buf.Length
    ensures IsComponent(piece) && Components(rest) == [piece] + Components(left)
  {
    hide Components, Holds;
    var n := 0;
    RestFrom(buf[..], p, rest, 0);
    while buf[p + n] != NUL && buf[p + n] != '/'
      invariant buf[..] == old(buf[..]) && Rest(buf[..], p, rest)
      invariant n <= |rest| && '/' !in rest[..n]
      invariant if n == |rest| then buf[p + n] == NUL else buf[p + n] == rest[n] != NUL
      decreases |rest| - n
    {
      assert rest[..n + 1] == rest[..n] + [rest[n]];
      n := n + 1;
      RestFrom(buf[..], p, rest, n);
    }
    piece := rest[..n];
    PieceEndIs(rest, n);
    CutText(rest, n);
    q := p + n;
    left := rest[n..];
    RestFrom(buf[..], p, rest, n);
    if buf[q] != NUL {
      ghost var before := buf[..];
      RestFrom(buf[..], p, rest, n + 1);
      buf[q] := NUL;
      q, left := q + 1, rest[n + 1..];
      CutHolds(before, buf[..], p, rest, n);
    } else {
      assert left == "" && piece == rest;
    }
  }

  lemma CutText(rest: string, n: nat)
    requires rest != "" && rest[0] != '/' && n == PieceEnd(rest)
    ensures IsComponent(rest[..n]) && Components(rest) == [rest[..n]] + Components(rest[n..])
    ensures n < |rest| ==> Components(rest[n..]) == Components(rest[n + 1..])
  {
    hide PieceEnd;
    assert n > 0;
    if n < |rest| {
      SlashSkipped(rest[n..]);
      assert rest[n..][1..] == rest[n + 1..];
    }
  }

  lemma SlashSkipped(s: string)
    requires s != "" && s[0] == '/'
    ensures Components(s) == Components(s[1..])
  {
  }

  lemma CutHolds(before: seq<char>, after: seq<char>, p: nat, rest: string, n: nat)
    requires Rest(before, p, rest) && n < |rest| && after == before[p + n := NUL]
    ensures Holds(after, p, rest[..n]) && Rest(after, p + n + 1, rest[n + 1..])
  {
    assert forall c <- rest[..n] :: c in rest;
    assert forall c <- rest[n + 1..] :: c in rest;
    assert after[p..p + n] == before[p..p + |rest|][..n];
    assert after[p + n + 1..p + |rest|] == before[p..p + |rest|][n + 1..];
  }

  lemma OffsetsUnchanged(before: seq<char>, after: seq<char>, offsets: seq<nat>, held: seq<string>, p: nat, q: nat)
    requires Offsets(before, offsets, held, p) && p < q < |before| == |after| && before[..p] == after[..p]
    ensures Offsets(after, offsets, held, q)
  {
    hide Holds;
    forall i | 0 <= i < |held| ensures Holds(after, offsets[i], held[i]) && offsets[i] + |held[i]| < q {
      var end := offsets[i] + |held[i]|;
      assert before[..end + 1] == before[..p][..end + 1] == after[..p][..end + 1] == after[..end + 1];
      HoldsUnchanged(before, after, offsets[i], held[i]);
    }
  }

  /** Push the component at start: strcmp it with "." and "..", then pop, append or drop it. */
  method PushOffset(buf: array<char>, components: array<nat>, count: nat, start: nat, absolute: bool,
      ghost held: seq<string>, ghost c: string, ghost p: nat)
    returns (newCount: nat)
    requires Offsets(buf[..], components[..], held, p) && count == |held|
    requires Holds(buf[..], start, c) && (start + |c| < p || start + |c| + 1 == p + 1 == buf.Length)
    modifies components
    ensures Offsets(buf[..], components[..], Push(held, c, absolute), p) && newCount == |Push(held, c, absolute)|
  {
    hide Holds;
    HeldString(buf[..], start, c);
    var text := StringAt(buf[..], start);
    if text == "." {
      return count;
    }
    if text == ".." {
      if count > 0 {
        HeldString(buf[..], components[count - 1], held[count - 1]);
        var top := StringAt(buf[..], components[count - 1]);
        if top != ".." {
          return count - 1;
        }
      }
      if absolute {
        return count;
      }
    }
    if count < CAP {
      components[count] := start;
      return count + 1;
    }
    return count;
  }

  /** memcpy of a component into the result. */
  method CopyText(result: array<char>, pos: nat, text: string)
    requires pos + |text| <= result.Length
    modifies result
    ensures result[..pos + |text|] == old(result[..pos]) + text
  {
    ghost var before := result[..pos];
    for i := 0 to |text|
      invariant result[..pos + i] == before + text[..i]
    {
      result[pos + i] := text[i];
      assert result[..pos + i + 1] == result[..pos + i] + [text[i]];
    }
  }

  lemma JoinOfNone()
    ensures Join([]) == ""
  {
  }

  lemma {:induction false} JoinGrows(cs: seq<string>, k: nat)
    requires k < |cs|
    ensures Join(cs[..k + 1]) == Join(cs[..k]) + (if k > 0 then "/" else "") + cs[k]
    ensures |Join(cs[..k + 1])| <= |Join(cs)|
    decreases |cs|
  {
    assert cs[..k + 1][..k] == cs[..k];
    if k + 1 < |cs| {
      JoinGrows(cs[..|cs| - 1], k);
      assert cs[..|cs| - 1][..k + 1] == cs[..k + 1];
    } else {
      assert cs[..k + 1] == cs;
    }
  }

  /** Write component i of held, after a separator unless it is the first. */
  method AppendPiece(result: array<char>, pos: nat, i: nat, piece: string, ghost root: string, ghost held: seq<string>)
    returns (newPos: nat)
    requires i < |held| && piece == held[i] && |root| + |Join(held)| <= result.Length
    requires pos == |root| + |Join(held[..i])| <= result.Length && result[..pos] == root + Join(held[..i])
    modifies result
    ensures newPos == |root| + |Join(held[..i + 1])| <= |root| + |Join(held)|
    ensures result[..newPos] == root + Join(held[..i + 1])
  {
    hide Join;
    JoinGrows(held, i);
    newPos := pos;
    if i > 0 {
      CopyText(result, pos, "/");
      newPos := pos + 1;
    }
    CopyText(result, newPos, piece);
    newPos := newPos + |piece|;
  }

  lemma OffsetString(buf: seq<char>, offsets: seq<nat>, held: seq<string>, p: nat, i: nat)
    requires Offsets(buf, offsets, held, p) && i < |held|
    ensures |held| <= |offsets| && offsets[i] < |buf| && StringAt(buf, offsets[i]) == held[i]
  {
    HeldString(buf, offsets[i], held[i]);
  }

  /** Write the components out, into a buffer of len + 2 characters. */
  method WriteResult(buf: array<char>, components: array<nat>, count: nat, absolute: bool, len: nat,
                     ghost held: seq<string>)
    returns (text: string)
    requires Offsets(buf[..], components[..], held, len) && count == |held|
    requires 0 < |Render(absolute, held)| <= len
    ensures text == Render(absolute, held)
  {
    hide Holds, Offsets, StringAt, IsCString, Join;
    var result := new char[len + 2];
    var pos := 0;
    if absolute {
      result[0] := '/';
      pos := 1;
    }
    ghost var root := if absolute then "/" else "";
    assert result[..pos] == root;
    assert held[..0] == [];
    JoinOfNone();
    for i := 0 to count
      invariant pos == |root| + |Join(held[..i])| <= len
      invariant result[..pos] == root + Join(held[..i])
    {
      OffsetString(buf[..], components[..], held, len, i);
      var piece := StringAt(buf[..], components[i]);
      pos := AppendPiece(result, pos, i, piece, root, held);
    }
    assert held[..count] == held;
    if pos == 0 {
      result[pos] := '.';
      pos := pos + 1;
    }
    result[pos] := NUL;
    text := result[..pos];
  }

  /** Read the next component, if there is one, and push it. */
  method ReadComponent(buf: array<char>, components: array<nat>, count: nat, p: nat, absolute: bool,
      ghost left: string, ghost held: seq<string>)
    returns (newCount: nat, q: nat, ghost rest: string, ghost newHeld: seq<string>)
    requires Rest(buf[..], p, left) && Offsets(buf[..], components[..], held, p) && count == |held|
    modifies buf, components
    ensures q < buf.Length && (left != "" ==> |rest| < |left|)
    ensures Rest(buf[..], q, rest) && Offsets(buf[..], components[..], newHeld, q) && newCount == |newHeld|
    ensures PushAll(newHeld, Components(rest), absolute) == PushAll(held, Components(left), absolute)
  {
    hide *;
    var from: nat;
    from, rest := SkipSlashes(buf, p, left);
    AtEnd(buf[..], from, rest);
    OffsetsLater(buf[..], components[..], held, p, from);
    if buf[from] == NUL {
      return count, from, rest, held;
    }
    ghost var before, piece := buf[..], "";
    q, piece, rest := Cut(buf, from, rest);
    OffsetsUnchanged(before, buf[..], components[..], held, from, q);
    newCount := PushOffset(buf, components, count, from, absolute, held, piece, q);
    PushAllStep(held, piece, Components(rest), absolute);
    newHeld := Push(held, piece, absolute);
  }

  /** normalize_path_textual. */
  method Normalize(path: string) returns (r: Option<string>)
    requires IsCString(path)
    ensures r == if path == "" then None else Some(Norm(path))
  {
    hide Components, Push, PushAll, Render, Holds, Rest, Offsets;
    if path == "" {
      return None;
    }
    var len := |path|;
    var buf := new char[len + 1](i requires 0 <= i <= len => if i < len then path[i] else NUL);
    StartsAtZero(buf[..], path);
    var components := new nat[CAP];
    NothingHeld(buf[..], components[..]);
    var count: nat := 0;
    var absolute := buf[0] == '/';
    var p: nat := 0;
    ghost var left, held := path, [];
    if absolute {
      RestFrom(buf[..], 0, path, 1);
      FirstSlash(path);
      p, left := 1, path[1..];
      OffsetsLater(buf[..], components[..], held, 0, p);
    }
    AtEnd(buf[..], p, left);
    while buf[p] != NUL
      invariant Rest(buf[..], p, left) && Offsets(buf[..], components[..], held, p) && count == |held|
      invariant PushAll(held, Components(left), absolute) == Held(path)
      invariant p < buf.Length && (buf[p] == NUL <==> left == "")
      decreases |left|
    {
      count, p, left, held := ReadComponent(buf, components, count, p, absolute, left, held);
      AtEnd(buf[..], p, left);
    }
    AtEnd(buf[..], p, left);
    NothingPushed(held, absolute);
    NormFits(path);
    var text := WriteResult(buf, components, count, absolute, len, held);
    return Some(text);
  }

  lemma AtEnd(buf: seq<char>, p: nat, left: string)
    requires Rest(buf, p, left)
    ensures p < |buf| && (buf[p] == NUL <==> left == "") && (left == "" ==> p + 1 == |buf|)
  {
    RestFrom(buf, p, left, 0);
  }

  lemma OffsetsLater(buf: seq<char>, offsets: seq<nat>, held: seq<string>, p: nat, q: nat)
    requires Offsets(buf, offsets, held, p) && p <= q < |buf|
    ensures Offsets(buf, offsets, held, q)
  {
  }

  lemma NothingHeld(buf: seq<char>, offsets: seq<nat>)
    requires |offsets| == CAP
    ensures Offsets(buf, offsets, [], 0)
  {
  }

  lemma StartsAtZero(buf: seq<char>, path: string)
    requires IsCString(path) && buf == path + [NUL]
    ensures Rest(buf, 0, path)
  {
  }

  lemma FirstSlash(path: string)
    requires IsAbsolute(path)
    ensures Components(path) == Components(path[1..])
  {
  }

  lemma NothingPushed(held: seq<string>, absolute: bool)
    ensures PushAll(held, Components(""), absolute) == held
  {
  }

  lemma PushAllStep(held: seq<string>, c: string, cs: seq<string>, absolute: bool)
    ensures PushAll(held, [c] + cs, absolute) == PushAll(Push(held, c, absolute), cs, absolute)
  {
    assert ([c] + cs)[1..] == cs;
  }

  /** path_is_under_root. */
  method TestUnderRoot(path: string, root: string) returns (r: bool)
    ensures r == IsUnderRoot(path, root)
  {
    var n := |root|;
    assert root[..n] == root;
    while n > 1 && root[n - 1] == '/'
      invariant 0 <= n <= |root| && Trimmed(root[..n]) == Trimmed(root)
    {
      assert root[..n][..n - 1] == root[..n - 1];
      n := n - 1;
    }
    assert Trimmed(root) == root[..n];
    if !(n <= |path| && path[..n] == root[..n]) {
      return false;
    }
    return n == |path| || path[n] == '/';
  }

  /** path_has_traversal. */
  method TestTraversal(path: string) returns (r: bool)
    requires IsCString(path)
    ensures r <==> exists c <- Components(path) :: IsTraversal(c)
  {
    TraversalIsComponent(path);
    for p := 0 to |path|
      invariant forall q: nat :: q < p ==> !TraversalAt(path, q)
    {
      var atStart := p == 0 || path[p - 1] == '/';
      if atStart && path[p] == '.' && p + 1 < |path| && path[p + 1] == '.' {
        if p + 2 == |path| || path[p + 2] == '/' || path[p + 2] == '\\' {
          assert TraversalAt(path, p);
          return true;
        }
      }
    }
    return false;
  }
}
