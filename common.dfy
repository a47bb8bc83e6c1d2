/**
 * Shared vocabulary of the model: optional values (Java's nullable references),
 * the error kinds the services raise, and the string primitives the services use
 * (`String.isBlank`, SQL `lower` and SQL `LIKE`).
 */
module Common {

  datatype Option<+T> = None | Some(value: T)

  /** The exceptions of the services, kept abstract. */
  datatype Error =
    | NotFound          // NotFoundException
    | Forbidden         // ForbiddenException
    | Validation        // ValidationException
    | Conflict          // ConflictException
    | IllegalArgument   // IllegalArgumentException
    | Arithmetic        // ArithmeticException (integer division by zero)
    | NullPointer       // NullPointerException (dereferencing or unboxing a null)

  datatype Result<+T> = Ok(value: T) | Err(error: Error)

  /** The outcome of a check that either passes or throws. */
  datatype Outcome = Pass | Fail(error: Error)

  /** `Character.isWhitespace` on the Basic Multilingual Plane. */
  predicate IsWhitespace(c: char) {
    c == ' ' || c == '\t' || c == '\n' || c == '\U{000B}' || c == '\U{000C}' || c == '\r'
    || ('\U{001C}' <= c <= '\U{001F}')
    || c == '\U{1680}' || ('\U{2000}' <= c <= '\U{2006}') || ('\U{2008}' <= c <= '\U{200A}')
    || c == '\U{2028}' || c == '\U{2029}' || c == '\U{205F}' || c == '\U{3000}'
  }

  /** `String.isBlank`: empty or only white space. */
  predicate IsBlank(s: string) {
    forall i :: 0 <= i < |s| ==> IsWhitespace(s[i])
  }

  /** A present string that is not blank: what the validators accept. */
  predicate IsFilled(s: Option<string>) {
    s.Some? && !IsBlank(s.value)
  }

  /** An id the validating services accept: present and positive. */
  predicate ValidId(id: Option<int>) {
    id.Some? && id.value > 0
  }

  /** `validateUserId`, `validateItemId`: an id must be present and positive. */
  function ValidateId(id: Option<int>): (r: Outcome)
    ensures r == Pass <==> ValidId(id)
    ensures r.Fail? ==> r.error == Validation
  {
    if id.None? || id.value <= 0 then Fail(Validation) else Pass
  }

  /** `validatePatch`: an argument that must not be null. */
  function ValidatePresent<T>(x: Option<T>): (r: Outcome)
    ensures r == Pass <==> x.Some?
    ensures r.Fail? ==> r.error == Validation
  {
    if x.None? then Fail(Validation) else Pass
  }

  /** SQL `lower` on one character (ASCII letters). */
  function LowerChar(c: char): (r: char)
    ensures 'A' <= c <= 'Z' ==> 'a' <= r <= 'z'
    ensures !('A' <= c <= 'Z') ==> r == c
  {
    if 'A' <= c <= 'Z' then (c as int - 'A' as int + 'a' as int) as char else c
  }

  /** SQL `lower` on a string. */
  function Lower(s: string): (r: string)
    ensures |r| == |s|
    ensures forall i :: 0 <= i < |s| ==> r[i] == LowerChar(s[i])
  {
    seq(|s|, i requires 0 <= i < |s| => LowerChar(s[i]))
  }

  lemma LowerAppend(a: string, b: string)
    ensures Lower(a + b) == Lower(a) + Lower(b)
  {
  }

  /** `needle` occurs in `hay` at position `i`. */
  predicate OccursAt(hay: string, needle: string, i: int) {
    0 <= i && i + |needle| <= |hay| && hay[i..i + |needle|] == needle
  }

  /** `hay` contains `needle` as a contiguous substring. */
  predicate Contains(hay: string, needle: string) {
    exists i :: 0 <= i <= |hay| && OccursAt(hay, needle, i)
  }

  /** A pattern character with a special meaning to SQL `LIKE`. */
  predicate IsLikeMeta(c: char) {
    c == '%' || c == '_' || c == '\\'
  }

  predicate NoLikeMeta(s: string) {
    forall i :: 0 <= i < |s| ==> !IsLikeMeta(s[i])
  }

  /**
   * SQL `s LIKE p`: `%` matches any run of characters, `_` exactly one
   * character, every other character itself.
   */
  function Like(s: string, p: string): bool
    decreases |p|, |s|
  {
    if p == [] then s == []
    else if p[0] == '%' then Like(s, p[1..]) || (s != [] && Like(s[1..], p))
    else if p[0] == '_' then s != [] && Like(s[1..], p[1..])
    else s != [] && s[0] == p[0] && Like(s[1..], p[1..])
  }

  /** `LIKE q + '%'` with a wildcard-free `q` is a prefix test. */
  lemma {:induction false} LikePrefix(s: string, q: string)
    requires NoLikeMeta(q)
    ensures Like(s, q + "%") <==> (|q| <= |s| && s[..|q|] == q)
    decreases |q|
  {
    if q == [] {
      LikeAnything(s);
      assert [] + "%" == "%";
    } else {
      assert (q + "%")[0] == q[0];
      assert (q + "%")[1..] == q[1..] + "%";
      assert !IsLikeMeta(q[0]);
      if s != [] {
        LikePrefix(s[1..], q[1..]);
        if |q| <= |s| && s[0] == q[0] {
          assert s[..|q|] == [s[0]] + s[1..][..|q[1..]|];
          assert q == [q[0]] + q[1..];
        }
      }
    }
  }

  /** `LIKE '%'` matches every string. */
  lemma {:induction false} LikeAnything(s: string)
    ensures Like(s, "%")
    decreases |s|
  {
    assert "%"[1..] == [];
    if s != [] {
      LikeAnything(s[1..]);
    }
  }

  /** `LIKE '%' + r` holds iff `LIKE r` holds of some suffix. */
  lemma {:induction false} LikeLeadingPercent(s: string, r: string)
    ensures Like(s, "%" + r) <==> exists i :: 0 <= i <= |s| && Like(s[i..], r)
    decreases |s|
  {
    var p := "%" + r;
    assert p[0] == '%' && p[1..] == r;
    if s == [] {
      assert s[0..] == s;
    } else {
      LikeLeadingPercent(s[1..], r);
      if Like(s, p) {
        if Like(s, r) {
          assert s[0..] == s;
        } else {
          var i :| 0 <= i <= |s[1..]| && Like(s[1..][i..], r);
          assert s[1..][i..] == s[i + 1..];
        }
      }
      if exists i :: 0 <= i <= |s| && Like(s[i..], r) {
        var i :| 0 <= i <= |s| && Like(s[i..], r);
        if i == 0 {
          assert s[0..] == s;
        } else {
          assert s[1..][i - 1..] == s[i..];
        }
      }
    }
  }

  /**
   * The pattern `'%' + text + '%'` that the item search builds matches exactly
   * the strings containing `text`, provided `text` has no wildcard.
   */
  lemma SurroundedLikeIsContains(s: string, text: string)
    requires NoLikeMeta(text)
    ensures Like(s, "%" + text + "%") <==> Contains(s, text)
  {
    assert "%" + text + "%" == "%" + (text + "%");
    LikeLeadingPercent(s, text + "%");
    if Like(s, "%" + text + "%") {
      var i :| 0 <= i <= |s| && Like(s[i..], text + "%");
      LikePrefix(s[i..], text);
      assert s[i..][..|text|] == s[i..i + |text|];
      assert OccursAt(s, text, i);
    }
    if Contains(s, text) {
      var i :| 0 <= i <= |s| && OccursAt(s, text, i);
      LikePrefix(s[i..], text);
      assert s[i..][..|text|] == s[i..i + |text|];
    }
  }
}
