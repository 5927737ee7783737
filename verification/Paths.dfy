/** How a path text joined onto a directory resolves, and which texts name exactly one thing inside it. */
module Paths {
  import opened Bytes

  predicate IsSeparator(b: byte) { b == 47 || b == 92 }

  /** The parts between separators, of either kind. */
  ghost function Parts(text: bytes): (ps: seq<bytes>)
    ensures ps != [] && forall p :: p in ps ==> 47 !in p && 92 !in p
  {
    if text == [] then [[]]
    else
      var rest := Parts(text[1..]);
      if IsSeparator(text[0]) then [[]] + rest
      else
        var head := [text[0]] + rest[0];
        assert rest[0] in rest;
        assert forall p :: p in rest[1..] ==> p in rest;
        [head] + rest[1..]
  }

  /** A directory is the list of names that leads to it from the top. */
  ghost function Step(dir: seq<bytes>, part: bytes): seq<bytes>
  {
    if part == [] || part == [46] then dir
    else if part == [46, 46] then (if dir == [] then [] else dir[..|dir| - 1])
    else dir + [part]
  }

  ghost function Walk(dir: seq<bytes>, parts: seq<bytes>): seq<bytes>
    decreases |parts|
  {
    if parts == [] then dir else Walk(Step(dir, parts[0]), parts[1..])
  }

  /** Joining a text that starts with a separator leaves the directory behind. */
  ghost function Join(dir: seq<bytes>, text: bytes): seq<bytes>
  {
    if text != [] && IsSeparator(text[0]) then Walk([], Parts(text)) else Walk(dir, Parts(text))
  }

  ghost function Resolve(root: seq<bytes>, texts: seq<bytes>): seq<bytes>
    decreases |texts|
  {
    if texts == [] then root else Resolve(Join(root, texts[0]), texts[1..])
  }

  /** Wherever it is joined, the text names one thing directly inside. */
  ghost predicate OneLevel(text: bytes)
  {
    forall dir :: Join(dir, text) == dir + [text]
  }

  ghost predicate Plain(text: bytes)
  {
    text != [] && text != [46] && text != [46, 46] && 47 !in text && 92 !in text
  }

  lemma {:induction false} PlainParts(text: bytes)
    requires 47 !in text && 92 !in text
    ensures Parts(text) == [text]
  {
    if text != [] {
      PlainParts(text[1..]);
      assert text == [text[0]] + text[1..];
    }
  }

  lemma {:induction false} WalkFrom(dir: seq<bytes>, parts: seq<bytes>, x: bytes)
    requires x in Walk(dir, parts)
    ensures x in dir || x in parts
    decreases |parts|
  {
    if parts != [] {
      WalkFrom(Step(dir, parts[0]), parts[1..], x);
      assert parts == [parts[0]] + parts[1..];
    }
  }

  /** Exactly the plain texts do: not empty, not a dot or two, no separator. */
  lemma OneLevelIffPlain(text: bytes)
    ensures OneLevel(text) <==> Plain(text)
  {
    if Plain(text) {
      PlainParts(text);
      forall dir ensures Join(dir, text) == dir + [text] {
        assert Walk(dir, [text]) == Walk(Step(dir, text), [text][1..]);
      }
    } else if 47 in text || 92 in text {
      if OneLevel(text) {
        assert Join([], text) == [] + [text];
        assert text in Walk([], Parts(text));
        WalkFrom([], Parts(text), text);
      }
    } else {
      PlainParts(text);
      assert Walk([], [text]) == Walk(Step([], text), [text][1..]);
      assert Join([], text) != [] + [text];
    }
  }

  /** Such texts, joined one after the other, go down one level each. */
  lemma {:induction false} ResolveDown(root: seq<bytes>, texts: seq<bytes>)
    requires forall t :: t in texts ==> OneLevel(t)
    ensures Resolve(root, texts) == root + texts
    decreases |texts|
  {
    hide Join;
    if texts != [] {
      assert texts[0] in texts;
      ResolveDown(root + [texts[0]], texts[1..]);
      assert root + [texts[0]] + texts[1..] == root + texts;
    }
  }
}
