/**
 HTML escaping as four sequential replacements: the result is the simultaneous
 substitution of the four special characters, and it can be undone.
 */
module HtmlEscape {
  function ReplaceChar(s: string, c: char, entity: string): string {
    if s == "" then "" else (if s[0] == c then entity else [s[0]]) + ReplaceChar(s[1..], c, entity)
  }

  function EscapeHtml(s: string): string {
    ReplaceChar(ReplaceChar(ReplaceChar(ReplaceChar(s, '&', "&amp;"), '<', "&lt;"), '>', "&gt;"), '"', "&quot;")
  }

  function Entity(c: char): string {
    if c == '&' then "&amp;" else if c == '<' then "&lt;" else if c == '>' then "&gt;" else if c == '"' then "&quot;" else [c]
  }

  /** Each character replaced on its own, all at once. */
  function Substitute(s: string): string {
    if s == "" then "" else Entity(s[0]) + Substitute(s[1..])
  }

  lemma ConcatTail(a: string, b: string)
    requires a != ""
    ensures (a + b)[0] == a[0] && (a + b)[1..] == a[1..] + b
  {
  }

  lemma Associates(p: string, q: string, r: string)
    ensures (p + q) + r == p + (q + r)
  {
  }

  lemma ReplaceFirst(s: string, c: char, entity: string)
    requires s != ""
    ensures ReplaceChar(s, c, entity) == (if s[0] == c then entity else [s[0]]) + ReplaceChar(s[1..], c, entity)
  {
  }

  lemma {:induction false} ReplaceConcat(a: string, b: string, c: char, entity: string)
    ensures ReplaceChar(a + b, c, entity) == ReplaceChar(a, c, entity) + ReplaceChar(b, c, entity)
  {
    if a == "" {
      assert a + b == b;
    } else {
      hide ReplaceChar;
      ReplaceConcat(a[1..], b, c, entity);
      ReplaceFirst(a, c, entity);
      ReplaceFirst(a + b, c, entity);
      ConcatTail(a, b);
      Associates(if a[0] == c then entity else [a[0]], ReplaceChar(a[1..], c, entity), ReplaceChar(b, c, entity));
    }
  }

  lemma {:induction false} Untouched(s: string, c: char, entity: string)
    requires c !in s
    ensures ReplaceChar(s, c, entity) == s
  {
    if s != "" {
      Untouched(s[1..], c, entity);
      assert s == [s[0]] + s[1..];
    }
  }

  lemma SingleChar(c: char)
    ensures EscapeHtml([c]) == Entity(c)
  {
    hide ReplaceChar;
    ReplaceSingle(c, '&', "&amp;");
    ReplaceSingle(c, '<', "&lt;");
    ReplaceSingle(c, '>', "&gt;");
    ReplaceSingle(c, '"', "&quot;");
    if c == '&' {
      Untouched("&amp;", '<', "&lt;");
      Untouched("&amp;", '>', "&gt;");
      Untouched("&amp;", '"', "&quot;");
    } else if c == '<' {
      Untouched("&lt;", '>', "&gt;");
      Untouched("&lt;", '"', "&quot;");
    } else if c == '>' {
      Untouched("&gt;", '"', "&quot;");
    }
  }

  lemma ReplaceSingle(x: char, c: char, entity: string)
    ensures ReplaceChar([x], c, entity) == if x == c then entity else [x]
  {
    assert [x][1..] == "" && ReplaceChar("", c, entity) == "";
  }

  lemma EscapeConcat(a: string, b: string)
    ensures EscapeHtml(a + b) == EscapeHtml(a) + EscapeHtml(b)
  {
    ReplaceConcat(a, b, '&', "&amp;");
    var a1, b1 := ReplaceChar(a, '&', "&amp;"), ReplaceChar(b, '&', "&amp;");
    ReplaceConcat(a1, b1, '<', "&lt;");
    var a2, b2 := ReplaceChar(a1, '<', "&lt;"), ReplaceChar(b1, '<', "&lt;");
    ReplaceConcat(a2, b2, '>', "&gt;");
    ReplaceConcat(ReplaceChar(a2, '>', "&gt;"), ReplaceChar(b2, '>', "&gt;"), '"', "&quot;");
  }

  /** The sequential replacements never touch each other's output. */
  lemma {:induction false} EscapeIsSimultaneous(s: string)
    ensures EscapeHtml(s) == Substitute(s)
  {
    if s != "" {
      assert s == [s[0]] + s[1..];
      EscapeConcat([s[0]], s[1..]);
      SingleChar(s[0]);
      EscapeIsSimultaneous(s[1..]);
    }
  }

  /** What escaping is for: no markup character is left, in any string. */
  lemma {:induction false} NoMarkupIsLeft(s: string)
    ensures '<' !in EscapeHtml(s) && '>' !in EscapeHtml(s) && '"' !in EscapeHtml(s)
  {
    EscapeIsSimultaneous(s);
    SubstituteIsClean(s);
  }

  lemma {:induction false} SubstituteIsClean(s: string)
    ensures '<' !in Substitute(s) && '>' !in Substitute(s) && '"' !in Substitute(s)
  {
    if s != "" {
      SubstituteIsClean(s[1..]);
    }
  }

  // ------------------------------------------------------------------
  // Undoing it.
  // ------------------------------------------------------------------

  /** Replace every occurrence of `entity`, left to right, by the character `c`. */
  function ReplaceEntity(s: string, entity: string, c: char): string
    requires entity != ""
  {
    if s == "" then ""
    else if entity <= s then [c] + ReplaceEntity(s[|entity|..], entity, c)
    else [s[0]] + ReplaceEntity(s[1..], entity, c)
  }

  function UnescapeHtml(s: string): string {
    ReplaceEntity(ReplaceEntity(ReplaceEntity(ReplaceEntity(s, "&quot;", '"'), "&gt;", '>'), "&lt;", '<'), "&amp;", '&')
  }

  /** An ampersand followed by characters that are neither ampersands nor `c`. */
  predicate IsEntity(entity: string, c: char) {
    entity != "" && entity[0] == '&' && '&' !in entity[1..] && c !in entity[1..]
  }

  ghost predicate Absent(entity: string, s: string) {
    forall i :: 0 <= i <= |s| ==> !(entity <= s[i..])
  }

  /** A prefix without ampersands was there before `c` was replaced. */
  lemma {:induction false} PrefixWasThere(q: string, t: string, c: char, entity: string)
    requires IsEntity(entity, c) && '&' !in q && q <= ReplaceChar(t, c, entity)
    ensures q <= t
  {
    if q != "" {
      var r := ReplaceChar(t, c, entity);
      assert t != "" && r[0] == q[0] && q[0] in q;
      assert t[0] != c;
      assert r[1..] == ReplaceChar(t[1..], c, entity) && q[1..] <= r[1..];
      PrefixWasThere(q[1..], t[1..], c, entity);
    }
  }

  lemma HeadJoins(entity: string, t: string)
    requires entity != "" && t != "" && entity[0] == t[0] && entity[1..] <= t[1..]
    ensures entity <= t[0..]
  {
    assert entity == [t[0]] + entity[1..] && t[0..] == [t[0]] + t[1..];
  }

  /** Replacing `c` by an entity that does not occur yet is undone by replacing the entity. */
  lemma {:induction false} UndoOne(t: string, c: char, entity: string)
    requires IsEntity(entity, c) && (c == '&' || Absent(entity, t))
    ensures ReplaceEntity(ReplaceChar(t, c, entity), entity, c) == t
  {
    if t != "" {
      var rest := ReplaceChar(t[1..], c, entity);
      var r := ReplaceChar(t, c, entity);
      assert c == '&' || Absent(entity, t[1..]) by {
        assert forall i :: 0 <= i <= |t[1..]| ==> t[1..][i..] == t[i + 1..];
      }
      UndoOne(t[1..], c, entity);
      if t[0] == c {
        assert r == entity + rest && r[|entity|..] == rest;
      } else {
        assert r == [t[0]] + rest && r[1..] == rest;
        if entity <= r {
          assert entity[0] == t[0] && entity[1..] <= rest;
          PrefixWasThere(entity[1..], t[1..], c, entity);
          HeadJoins(entity, t);
        }
      }
      assert t == [t[0]] + t[1..];
    }
  }

  /** Replacing another character does not create the entity, whose second letter differs. */
  lemma {:induction false} StaysAbsent(entity: string, t: string, c: char, other: string)
    requires IsEntity(entity, c) && IsEntity(other, c) && |entity| >= 2 && |other| >= 2 && entity[1] != other[1]
    requires c == '&' || Absent(entity, t)
    ensures Absent(entity, ReplaceChar(t, c, other))
  {
    var r := ReplaceChar(t, c, other);
    if t == "" {
      assert forall i :: 0 <= i <= |r| ==> r[i..] == "";
    } else {
      var rest := ReplaceChar(t[1..], c, other);
      assert c == '&' || Absent(entity, t[1..]) by {
        assert forall i :: 0 <= i <= |t[1..]| ==> t[1..][i..] == t[i + 1..];
      }
      StaysAbsent(entity, t[1..], c, other);
      var head := if t[0] == c then other else [t[0]];
      assert r == head + rest;
      forall i | 0 <= i <= |r| ensures !(entity <= r[i..]) {
        if i >= |head| {
          assert r[i..] == rest[i - |head|..];
        } else if i > 0 {
          assert r[i] == other[1..][i - 1];
        } else if t[0] == c {
          assert r[0..][1] == other[1];
        } else if entity <= r[0..] {
          assert r[0..] == r && entity[1..] <= rest;
          PrefixWasThere(entity[1..], t[1..], c, other);
          HeadJoins(entity, t);
        }
      }
    }
  }

  /** Unescaping in the reverse order gives back every string, including ones that look escaped. */
  lemma UnescapeUndoesEscape(s: string)
    ensures UnescapeHtml(EscapeHtml(s)) == s
  {
    var a := ReplaceChar(s, '&', "&amp;");
    var b := ReplaceChar(a, '<', "&lt;");
    var d := ReplaceChar(b, '>', "&gt;");
    StaysAbsent("&lt;", s, '&', "&amp;");
    StaysAbsent("&gt;", s, '&', "&amp;");
    StaysAbsent("&quot;", s, '&', "&amp;");
    StaysAbsent("&gt;", a, '<', "&lt;");
    StaysAbsent("&quot;", a, '<', "&lt;");
    StaysAbsent("&quot;", b, '>', "&gt;");
    UndoOne(d, '"', "&quot;");
    UndoOne(b, '>', "&gt;");
    UndoOne(a, '<', "&lt;");
    UndoOne(s, '&', "&amp;");
  }
}
