/**
 * Shared vocabulary of the collection API: handler outcomes, the rows of the
 * recordings and users tables, and the few string operations the handlers
 * rely on (prefix tests, comma splitting, decimal rendering, fresh names).
 */
module Common {

  datatype Option<T> = None | Some(value: T)

  /** The error answers a handler gives: HTTP 400, 403, 404, and 500 when a
      database call throws and the handler hands the error to `next`. */
  datatype ApiError = BadRequest | Forbidden | NotFound | ServerError

  datatype Result<T> = Ok(value: T) | Err(error: ApiError)

  /** `Recording.status`. APPROVED and REJECTED are set by the review
      pipeline, which is outside this model, but are read here. */
  datatype Status = Uploading | Pending | Processing | Approved | Rejected

  /** A row of the recordings table. `metadata` is not interpreted and is not kept. */
  datatype Recording = Recording(
    id: string,
    userId: string,
    glossaryId: int,
    s3Key: string,
    filename: string,
    contentType: string,
    status: Status)

  datatype HearingStatus = Deaf | HardOfHearing | Hearing | Coda

  /** A row of the users table. Days are whole day numbers (local midnight
      to local midnight); the time of day of `lastContributionAt` is not kept. */
  datatype User = User(
    name: Option<string>,
    role: string,
    currentStreak: nat,
    lastContributionDay: Option<int>,
    reputationScore: nat,
    onboardingCompleted: bool,
    hearingStatus: Option<HearingStatus>,
    lsmVariant: Option<string>,
    ageRange: Option<string>,
    gender: Option<string>)

  // ---------------------------------------------------------------------
  // Strings

  predicate StartsWith(s: string, prefix: string)
  {
    |prefix| <= |s| && s[..|prefix|] == prefix
  }

  predicate EndsWith(s: string, suffix: string)
  {
    |suffix| <= |s| && s[|s| - |suffix|..] == suffix
  }

  /** The characters JavaScript's `String.prototype.trim` removes that can
      occur in a query string (the other Unicode spaces are not modelled). */
  predicate IsSpace(c: char)
  {
    c == ' ' || c == '\t' || c == '\n' || c == '\r' || c == '\U{B}' || c == '\U{C}'
  }

  /** `s.trim().length > 0` */
  predicate NotBlank(s: string)
  {
    exists i :: 0 <= i < |s| && !IsSpace(s[i])
  }

  /** `s.split(sep)`: the pieces between separators, always at least one. */
  function Split(s: string, sep: char): (parts: seq<string>)
    ensures |parts| >= 1
    ensures forall k :: 0 <= k < |parts| ==> sep !in parts[k]
    decreases |s|
  {
    if s == [] then [""]
    else
      var rest := Split(s[1..], sep);
      if s[0] == sep then [""] + rest
      else [[s[0]] + rest[0]] + rest[1..]
  }

  /** `parts.join(sep)` */
  function Join(parts: seq<string>, sep: char): string
    requires |parts| >= 1
    decreases |parts|
  {
    if |parts| == 1 then parts[0] else parts[0] + [sep] + Join(parts[1..], sep)
  }

  /** Splitting loses nothing: joining the pieces gives the string back. */
  lemma {:induction false} JoinSplit(s: string, sep: char)
    ensures Join(Split(s, sep), sep) == s
    decreases |s|
  {
    if s != [] {
      JoinSplit(s[1..], sep);
      var rest := Split(s[1..], sep);
      if s[0] == sep {
        assert Split(s, sep) == [""] + rest;
        assert ([""] + rest)[1..] == rest;
      } else {
        var parts := [[s[0]] + rest[0]] + rest[1..];
        assert Split(s, sep) == parts;
        if |rest| == 1 {
          assert Join(parts, sep) == [s[0]] + rest[0];
        } else {
          assert parts[1..] == rest[1..];
          assert Join(rest, sep) == rest[0] + [sep] + Join(rest[1..], sep);
          assert Join(parts, sep) == [s[0]] + rest[0] + [sep] + Join(rest[1..], sep);
        }
        assert s == [s[0]] + s[1..];
      }
    }
  }

  /** Keeps the elements of `parts` that are not blank, in order:
      `.filter(id => id.trim().length > 0)`. */
  function DropBlank(parts: seq<string>): (r: seq<string>)
    ensures forall k :: 0 <= k < |r| ==> NotBlank(r[k]) && r[k] in parts
    ensures forall p :: p in parts && NotBlank(p) ==> p in r
  {
    if parts == [] then []
    else if NotBlank(parts[0]) then [parts[0]] + DropBlank(parts[1..])
    else DropBlank(parts[1..])
  }

  // ---------------------------------------------------------------------
  // Decimal rendering, as in JavaScript template literals

  function DigitChar(d: nat): char
    requires d < 10
  {
    (48 + d) as char
  }

  predicate IsDigit(c: char)
  {
    '0' <= c <= '9'
  }

  function NatToString(n: nat): (s: string)
    ensures |s| >= 1
    ensures forall k :: 0 <= k < |s| ==> IsDigit(s[k])
    decreases n
  {
    if n < 10 then [DigitChar(n)] else NatToString(n / 10) + [DigitChar(n % 10)]
  }

  /** `${i}` for an integer `i` */
  function IntToString(i: int): string
  {
    if i < 0 then "-" + NatToString(-i) else NatToString(i)
  }

  /** The value of a string of decimal digits. */
  function DigitsValue(s: string): nat
    requires forall k :: 0 <= k < |s| ==> IsDigit(s[k])
  {
    if s == [] then 0 else 10 * DigitsValue(s[..|s| - 1]) + DigitValue(s[|s| - 1])
  }

  function DigitValue(c: char): nat
    requires IsDigit(c)
  {
    c as int - 48
  }

  /** Reading the decimal rendering of `n` gives `n` back, so distinct
      numbers render differently. */
  lemma {:induction false} NatToStringRoundTrip(n: nat)
    ensures DigitsValue(NatToString(n)) == n
    decreases n
  {
    if n >= 10 {
      NatToStringRoundTrip(n / 10);
      var s := NatToString(n);
      assert s[..|s| - 1] == NatToString(n / 10);
    }
  }

  lemma NatToStringInjective(m: nat, n: nat)
    requires NatToString(m) == NatToString(n)
    ensures m == n
  {
    NatToStringRoundTrip(m);
    NatToStringRoundTrip(n);
  }

  // ---------------------------------------------------------------------
  // Fresh names: what `uuidv4()` and the database's id default give

  ghost function MaxLength(s: set<string>): (m: nat)
    ensures forall x :: x in s ==> |x| <= m
    decreases s
  {
    if s == {} then 0
    else
      var x :| x in s;
      var m := MaxLength(s - {x});
      if |x| > m then |x| else m
  }

  /** The shape of a generated identifier: no path separator, no dot, and
      not the `temp-` prefix clients use for rows they have not created. */
  predicate PlainName(x: string)
  {
    '/' !in x && '.' !in x && !StartsWith(x, "temp-")
  }

  /** Whatever finitely many names are in use, another plain name exists. */
  lemma FreshNameExists(used: set<string>)
    ensures exists x :: x !in used && PlainName(x)
  {
    var w := seq(MaxLength(used) + 1, _ => 'x');
    assert w !in used;
    assert w[0] == 'x';
    assert PlainName(w);
  }

  /** A subset is no larger than its superset, and only the whole set is as large. */
  lemma {:induction false} SubsetCardinality<T>(a: set<T>, b: set<T>)
    requires a <= b
    ensures |a| <= |b|
    ensures |a| == |b| ==> a == b
    decreases b
  {
    if b != {} {
      var x :| x in b;
      SubsetCardinality(a - {x}, b - {x});
      if x in a {
        assert a == (a - {x}) + {x};
        assert b == (b - {x}) + {x};
      } else {
        assert a <= b - {x};
      }
    }
  }
}
