/**
 * Cookie helpers of public/js/utils.js: the text `createCookie` writes,
 * `readCookie`'s scan of the `document.cookie` list, and `eraseCookie`.
 *
 * The browser's cookie store is a `CookieJar`: the cookies in the order the
 * browser lists them. `Header` is what `document.cookie` reads back
 * ("n1=v1; n2=v2", as laid out in section 4.2.1 of RFC 6265) and `Store` is
 * the effect of assigning a `createCookie` string to `document.cookie`.
 */
module Cookies {
  import opened Wrappers

  // ---------------------------------------------------------------------------
  // String helpers: `split` and the leading-space loop
  // ---------------------------------------------------------------------------

  /** `s.split(sep)`: the separator-free pieces of `s`, in order; `k` separators give `k + 1` pieces. */
  function Split(s: string, sep: char): (pieces: seq<string>)
    ensures |pieces| >= 1
    ensures forall i :: 0 <= i < |pieces| ==> sep !in pieces[i]
    decreases |s|
  {
    if s == [] then [""]
    else
      var rest := Split(s[1..], sep);
      if s[0] == sep then [""] + rest
      else [[s[0]] + rest[0]] + rest[1..]
  }

  /** The pieces with one separator between neighbours. */
  function Join(pieces: seq<string>, sep: char): string
    requires |pieces| >= 1
    decreases |pieces|
  {
    if |pieces| == 1 then pieces[0] else pieces[0] + [sep] + Join(pieces[1..], sep)
  }

  /** Joining the pieces of a split gives back the string. */
  lemma {:induction false} JoinSplit(s: string, sep: char)
    ensures Join(Split(s, sep), sep) == s
    decreases |s|
  {
    if s != [] {
      var rest := Split(s[1..], sep);
      JoinSplit(s[1..], sep);
      if s[0] == sep {
        calc {
          Join(Split(s, sep), sep);
          Join([""] + rest, sep);
          { assert ([""] + rest)[1..] == rest; }
          "" + [sep] + Join(rest, sep);
          [s[0]] + s[1..];
          s;
        }
      } else if |rest| == 1 {
        assert Split(s, sep) == [[s[0]] + rest[0]];
        assert Join(rest, sep) == rest[0];
        assert [s[0]] + s[1..] == s;
      } else {
        var first := [s[0]] + rest[0];
        assert Split(s, sep) == [first] + rest[1..];
        assert ([first] + rest[1..])[1..] == rest[1..];
        calc {
          Join(Split(s, sep), sep);
          first + [sep] + Join(rest[1..], sep);
          [s[0]] + (rest[0] + [sep] + Join(rest[1..], sep));
          [s[0]] + Join(rest, sep);
          s;
        }
      }
    }
  }

  /** A separator-free prefix joins the first piece of what follows it. */
  lemma {:induction false} SplitPrepend(a: string, b: string, sep: char)
    requires sep !in a
    ensures Split(a + b, sep) == [a + Split(b, sep)[0]] + Split(b, sep)[1..]
    decreases |a|
  {
    if a != [] {
      assert (a + b)[1..] == a[1..] + b;
      assert (a + b)[0] == a[0];
      SplitPrepend(a[1..], b, sep);
      assert [a[0]] + (a[1..] + Split(b, sep)[0]) == a + Split(b, sep)[0];
    } else {
      assert a + b == b;
      assert a + Split(b, sep)[0] == Split(b, sep)[0];
      assert Split(b, sep) == [Split(b, sep)[0]] + Split(b, sep)[1..];
    }
  }

  /** Splitting the join of separator-free pieces gives back the pieces. */
  lemma {:induction false} SplitJoin(pieces: seq<string>, sep: char)
    requires |pieces| >= 1
    requires forall i :: 0 <= i < |pieces| ==> sep !in pieces[i]
    ensures Split(Join(pieces, sep), sep) == pieces
    decreases |pieces|
  {
    if |pieces| == 1 {
      SplitPrepend(pieces[0], [], sep);
      assert pieces[0] + [] == pieces[0];
    } else {
      var tail := Join(pieces[1..], sep);
      SplitJoin(pieces[1..], sep);
      var b := [sep] + tail;
      SplitPrepend(pieces[0], b, sep);
      assert b[0] == sep && b[1..] == tail;
      assert Split(b, sep) == [""] + pieces[1..];
      assert Join(pieces, sep) == pieces[0] + b;
      assert pieces[0] + Split(b, sep)[0] == pieces[0];
      assert Split(b, sep)[1..] == pieces[1..];
      assert pieces == [pieces[0]] + pieces[1..];
    }
  }

  /** `while (c.charAt(0)==' ') c = c.substring(1,c.length)`: only the leading spaces go. */
  function StripLeadingSpaces(c: string): (r: string)
    ensures r == [] || r[0] != ' '
    decreases |c|
  {
    if c != [] && c[0] == ' ' then StripLeadingSpaces(c[1..]) else c
  }

  /** Only leading spaces are removed: the result is what follows a run of spaces in `c`. */
  lemma {:induction false} StripRemovesOnlyLeadingSpaces(c: string)
    ensures |StripLeadingSpaces(c)| <= |c|
    ensures c[|c| - |StripLeadingSpaces(c)|..] == StripLeadingSpaces(c)
    ensures forall i :: 0 <= i < |c| - |StripLeadingSpaces(c)| ==> c[i] == ' '
    decreases |c|
  {
    if c != [] && c[0] == ' ' {
      StripRemovesOnlyLeadingSpaces(c[1..]);
      assert c[1..][|c| - 1 - |StripLeadingSpaces(c)|..] == c[|c| - |StripLeadingSpaces(c)|..];
      forall i | 1 <= i < |c| - |StripLeadingSpaces(c)| ensures c[i] == ' ' {
        assert c[i] == c[1..][i - 1];
      }
    }
  }

  // ---------------------------------------------------------------------------
  // readCookie
  // ---------------------------------------------------------------------------

  /** The rest of the first entry that, once its leading spaces are gone, starts with `nameEQ`. */
  function FirstMatch(entries: seq<string>, nameEQ: string): Option<string>
    decreases |entries|
  {
    if entries == [] then None
    else
      var c := StripLeadingSpaces(entries[0]);
      if nameEQ <= c then Some(c[|nameEQ|..]) else FirstMatch(entries[1..], nameEQ)
  }

  /** What `readCookie(name)` returns when `document.cookie` is `header`. */
  function CookieValue(header: string, name: string): Option<string>
  {
    FirstMatch(Split(header, ';'), name + "=")
  }

  /** Does entry `e`, after its leading spaces, start with `nameEQ`? */
  predicate Matches(e: string, nameEQ: string)
  {
    nameEQ <= StripLeadingSpaces(e)
  }

  /** `readCookie` answers null exactly when no entry, after its leading spaces, starts with `name=`. */
  lemma {:induction false} FirstMatchNone(entries: seq<string>, nameEQ: string)
    ensures FirstMatch(entries, nameEQ).None? <==> forall i :: 0 <= i < |entries| ==> !Matches(entries[i], nameEQ)
    decreases |entries|
  {
    if entries != [] {
      FirstMatchNone(entries[1..], nameEQ);
      assert forall i :: 1 <= i < |entries| ==> entries[i] == entries[1..][i - 1];
    }
  }

  /**
   * When `readCookie` answers, it answers with the text after `name=` in the
   * first matching entry, whatever later entries hold: a witness `k` is returned.
   */
  lemma {:induction false} FirstMatchSome(entries: seq<string>, nameEQ: string) returns (k: nat)
    requires FirstMatch(entries, nameEQ).Some?
    ensures k < |entries| && Matches(entries[k], nameEQ)
    ensures FirstMatch(entries, nameEQ).value == StripLeadingSpaces(entries[k])[|nameEQ|..]
    ensures forall j :: 0 <= j < k ==> !Matches(entries[j], nameEQ)
    decreases |entries|
  {
    if Matches(entries[0], nameEQ) {
      k := 0;
    } else {
      var k' := FirstMatchSome(entries[1..], nameEQ);
      k := k' + 1;
      assert entries[k] == entries[1..][k'];
      forall j | 0 <= j < k ensures !Matches(entries[j], nameEQ) {
        if j > 0 { assert entries[j] == entries[1..][j - 1]; }
      }
    }
  }

  /** The value is the whole rest of the entry, `=` included. */
  lemma ReadCookieKeepsEquals()
    ensures CookieValue("a=b=c", "a") == Some("b=c")
  {
    SplitNoSeparator("a=b=c", ';');
    assert StripLeadingSpaces("a=b=c") == "a=b=c";
    assert "a=" <= "a=b=c";
  }

  /** A name that is only a prefix of a cookie's name does not match. */
  lemma ReadCookieWholeName()
    ensures CookieValue("xy=1", "x") == None
  {
    SplitNoSeparator("xy=1", ';');
    assert StripLeadingSpaces("xy=1") == "xy=1";
    assert !("x=" <= "xy=1");
    assert Split("xy=1", ';')[1..] == [];
  }

  // ---------------------------------------------------------------------------
  // createCookie / eraseCookie
  // ---------------------------------------------------------------------------

  /**
   * The string `createCookie(name, value, days)` assigns to `document.cookie`.
   * `days` is JavaScript-falsy exactly when it is 0; `expires` stands for the
   * `toGMTString()` text of now plus `days` days, which depends on the clock.
   */
  function CookieAssignment(name: string, value: string, days: int, expires: string): (s: string)
    ensures name + "=" + value <= s
    ensures days == 0 ==> s == name + "=" + value + "; path=/"
    ensures days != 0 ==> s == name + "=" + value + "; expires=" + expires + "; path=/"
  {
    var expiresPart := if days != 0 then "; expires=" + expires else "";
    name + "=" + value + expiresPart + "; path=/"
  }

  /** `eraseCookie(name)` is `createCookie(name, "", -1)`: an empty value that expired a day ago. */
  function EraseAssignment(name: string, expires: string): (s: string)
    ensures s == name + "=; expires=" + expires + "; path=/"
  {
    CookieAssignment(name, "", -1, expires)
  }

  /** A name the scan finds again: no `=` or `;` in it, and no leading space. */
  predicate ValidName(name: string)
  {
    '=' !in name && ';' !in name && (name == [] || name[0] != ' ')
  }

  /** The part of a value the browser keeps: everything before its first `;`. */
  function BeforeSemicolon(v: string): (r: string)
    ensures r <= v && ';' !in r
    ensures |r| < |v| ==> v[|r|] == ';'
    ensures ';' !in v ==> r == v
    decreases |v|
  {
    if v == [] || v[0] == ';' then [] else [v[0]] + BeforeSemicolon(v[1..])
  }

  /** A list whose first entry is `head`, cut off by a `;`, answers with what follows `nameEQ` in `head`. */
  lemma FirstEntryAnswers(head: string, rest: string, nameEQ: string)
    requires ';' !in head && rest != [] && rest[0] == ';'
    requires nameEQ <= head && (head == [] || head[0] != ' ')
    ensures FirstMatch(Split(head + rest, ';'), nameEQ) == Some(head[|nameEQ|..])
  {
    assert Split(rest, ';')[0] == "" by {
      assert rest == [';'] + rest[1..];
    }
    SplitPrepend(head, rest, ';');
    assert Split(head + rest, ';')[0] == head;
    assert StripLeadingSpaces(head) == head;
  }

  /** A later entry with the same name is ignored: the first `name=` entry decides. */
  lemma ReadCookieFirstWins(name: string, value: string, later: string)
    requires ValidName(name) && ';' !in value
    ensures CookieValue(name + "=" + value + ";" + later, name) == Some(value)
  {
    var head := name + "=" + value;
    assert ';' !in head && (name + "=") <= head && head[|name + "="|..] == value;
    assert head == [] || head[0] != ' ' by {
      if name == [] { assert head[0] == '='; } else { assert head[0] == name[0]; }
    }
    assert name + "=" + value + ";" + later == head + (";" + later);
    FirstEntryAnswers(head, ";" + later, name + "=");
  }

  lemma Regroup(a: string, v: string, k: string, c: string, x: string, y: string)
    requires v == k + c
    ensures a + v + x + y == a + k + (c + x + y)
  {
  }

  /** The assignment string is `name=`, the kept value, then a tail that starts with `;`. */
  lemma AssignmentShape(name: string, value: string, days: int, expires: string) returns (tail: string)
    ensures CookieAssignment(name, value, days, expires) == name + "=" + BeforeSemicolon(value) + tail
    ensures tail != [] && tail[0] == ';'
  {
    var kept := BeforeSemicolon(value);
    var expiresPart := if days != 0 then "; expires=" + expires else "";
    var cut := value[|kept|..];
    tail := cut + expiresPart + "; path=/";
    assert value == kept + cut;
    Regroup(name + "=", value, kept, cut, expiresPart, "; path=/");
    assert tail[0] == ';' by {
      if cut != [] {
        assert tail[0] == cut[0];
      } else if days != 0 {
        assert tail[0] == expiresPart[0];
      } else {
        assert tail == "; path=/";
      }
    }
  }

  /** Read as a cookie list itself, the assignment string carries `name=` and the kept value first. */
  lemma AssignmentCarriesValue(name: string, value: string, days: int, expires: string)
    requires ValidName(name)
    ensures CookieValue(CookieAssignment(name, value, days, expires), name) == Some(BeforeSemicolon(value))
  {
    var kept := BeforeSemicolon(value);
    var tail := AssignmentShape(name, value, days, expires);
    var head := name + "=" + kept;
    assert ';' !in head && (name + "=") <= head && head[|name + "="|..] == kept;
    assert head == [] || head[0] != ' ' by {
      if name == [] { assert head[0] == '='; } else { assert head[0] == name[0]; }
    }
    FirstEntryAnswers(head, tail, name + "=");
  }

  // ---------------------------------------------------------------------------
  // The browser's cookie store
  // ---------------------------------------------------------------------------

  /** One stored cookie; `days` is the lifetime it was written with (0: until the browser closes). */
  datatype Cookie = Cookie(name: string, value: string, days: int)

  /** `name=value`, the form `document.cookie` lists a cookie in. */
  function Pair(c: Cookie): string
  {
    c.name + "=" + c.value
  }

  /** The text `document.cookie` reads back: the pairs separated by "; ". */
  function Header(jar: seq<Cookie>): string
    decreases |jar|
  {
    if jar == [] then ""
    else if |jar| == 1 then Pair(jar[0])
    else Pair(jar[0]) + "; " + Header(jar[1..])
  }

  /** Every cookie the page writes can be found again by name. */
  predicate WellFormedJar(jar: seq<Cookie>)
  {
    forall i :: 0 <= i < |jar| ==> ValidName(jar[i].name) && ';' !in jar[i].value
  }

  /** The value of the first cookie called `name`. */
  function FirstValue(jar: seq<Cookie>, name: string): Option<string>
    decreases |jar|
  {
    if jar == [] then None
    else if jar[0].name == name then Some(jar[0].value)
    else FirstValue(jar[1..], name)
  }

  /** Replaces the first cookie with `c`'s name in place (keeping its position), or appends `c`. */
  function Upsert(jar: seq<Cookie>, c: Cookie): (r: seq<Cookie>)
    ensures FirstValue(r, c.name) == Some(c.value)
    ensures forall n {:trigger FirstValue(r, n)} :: n != c.name ==> FirstValue(r, n) == FirstValue(jar, n)
    decreases |jar|
  {
    if jar == [] then [c]
    else if jar[0].name == c.name then [c] + jar[1..]
    else [jar[0]] + Upsert(jar[1..], c)
  }

  /** Drops every cookie called `name`. */
  function Remove(jar: seq<Cookie>, name: string): (r: seq<Cookie>)
    ensures FirstValue(r, name) == None
    ensures forall n {:trigger FirstValue(r, n)} :: n != name ==> FirstValue(r, n) == FirstValue(jar, n)
    ensures forall i {:trigger r[i]} :: 0 <= i < |r| ==> r[i] in jar
    decreases |jar|
  {
    if jar == [] then []
    else if jar[0].name == name then Remove(jar[1..], name)
    else [jar[0]] + Remove(jar[1..], name)
  }

  /**
   * The browser's effect of assigning `CookieAssignment(name, value, days, _)`:
   * a cookie whose expiry is past (negative `days`) is deleted; otherwise the
   * cookie is set to the part of `value` before its first `;`.
   */
  function Store(jar: seq<Cookie>, name: string, value: string, days: int): seq<Cookie>
  {
    if days < 0 then Remove(jar, name) else Upsert(jar, Cookie(name, BeforeSemicolon(value), days))
  }

  /** Writing keeps every cookie findable by name. */
  lemma {:induction false} StoreKeepsWellFormed(jar: seq<Cookie>, name: string, value: string, days: int)
    requires WellFormedJar(jar) && ValidName(name)
    ensures WellFormedJar(Store(jar, name, value, days))
  {
    if days >= 0 {
      UpsertWellFormed(jar, Cookie(name, BeforeSemicolon(value), days));
    }
  }

  lemma {:induction false} UpsertWellFormed(jar: seq<Cookie>, c: Cookie)
    requires WellFormedJar(jar) && ValidName(c.name) && ';' !in c.value
    ensures WellFormedJar(Upsert(jar, c))
    decreases |jar|
  {
    if jar != [] && jar[0].name != c.name {
      UpsertWellFormed(jar[1..], c);
    }
  }

  /** A run of spaces followed by text that does not start with a space strips to that text. */
  lemma {:induction false} StripSpacesBefore(spaces: string, t: string)
    requires forall i :: 0 <= i < |spaces| ==> spaces[i] == ' '
    requires t == [] || t[0] != ' '
    ensures StripLeadingSpaces(spaces + t) == t
    decreases |spaces|
  {
    if spaces == [] {
      assert spaces + t == t;
    } else {
      assert (spaces + t)[1..] == spaces[1..] + t;
      StripSpacesBefore(spaces[1..], t);
    }
  }

  /** For valid names, `name=` starts a cookie's pair exactly when the cookie has that name. */
  lemma PairMatchesName(c: Cookie, name: string)
    requires ValidName(c.name) && ValidName(name)
    ensures (name + "=" <= Pair(c)) <==> c.name == name
    ensures c.name == name ==> Pair(c)[|name + "="|..] == c.value
  {
    var p := Pair(c);
    var nameEQ := name + "=";
    if |name| < |c.name| {
      assert p[|name|] == c.name[|name|] != '=';
      assert nameEQ[|name|] == '=';
    } else if |name| > |c.name| {
      assert p[|c.name|] == '=';
      assert nameEQ[|c.name|] == name[|c.name|] != '=';
    } else if name != c.name {
      assert p[..|name|] == c.name;
      assert nameEQ[..|name|] == name;
    } else {
      assert nameEQ <= p;
    }
  }

  /** Text without a separator is one piece. */
  lemma SplitNoSeparator(a: string, sep: char)
    requires sep !in a
    ensures Split(a, sep) == [a]
  {
    SplitPrepend(a, [], sep);
    assert a + [] == a;
  }

  /** A separator-free head followed by a separator is the first piece. */
  lemma SplitAtSeparator(a: string, b: string, sep: char)
    requires sep !in a
    ensures Split(a + [sep] + b, sep) == [a] + Split(b, sep)
  {
    var t := [sep] + b;
    SplitPrepend(a, t, sep);
    assert t[0] == sep && t[1..] == b;
    assert Split(t, sep) == [""] + Split(b, sep);
    assert a + [sep] + b == a + t;
    assert a + Split(t, sep)[0] == a;
  }

  /** The entry a cookie's pair makes, after any run of spaces, is found exactly for its name. */
  lemma EntryOfPair(spaces: string, c: Cookie, name: string)
    requires forall i :: 0 <= i < |spaces| ==> spaces[i] == ' '
    requires ValidName(c.name) && ';' !in c.value && ValidName(name)
    ensures ';' !in spaces + Pair(c)
    ensures Matches(spaces + Pair(c), name + "=") <==> c.name == name
    ensures c.name == name ==> StripLeadingSpaces(spaces + Pair(c))[|name + "="|..] == c.value
  {
    StripSpacesBefore(spaces, Pair(c));
    PairMatchesName(c, name);
  }

  /** An empty store reads as text with no entry to find. */
  lemma ScanEmpty(spaces: string, name: string)
    requires forall i :: 0 <= i < |spaces| ==> spaces[i] == ' '
    ensures FirstMatch(Split(spaces + Header([]), ';'), name + "=") == None
  {
    assert spaces + Header([]) == spaces;
    SplitNoSeparator(spaces, ';');
    StripSpacesBefore(spaces, []);
    assert spaces + [] == spaces;
    assert !(name + "=" <= []);
  }

  /** The entries of a non-empty store's header: the first pair, then the rest after "; ". */
  lemma HeaderEntries(spaces: string, jar: seq<Cookie>)
    requires |jar| >= 1 && ';' !in spaces + Pair(jar[0])
    ensures Split(spaces + Header(jar), ';') ==
      [spaces + Pair(jar[0])] + (if |jar| == 1 then [] else Split(" " + Header(jar[1..]), ';'))
  {
    var e := spaces + Pair(jar[0]);
    if |jar| == 1 {
      SplitNoSeparator(e, ';');
      assert spaces + Header(jar) == e;
    } else {
      assert spaces + Header(jar) == e + [';'] + (" " + Header(jar[1..]));
      SplitAtSeparator(e, " " + Header(jar[1..]), ';');
    }
  }

  /** Core of the bridge: the scan over spaces-then-header finds the first cookie with the name. */
  lemma {:induction false} ScanFindsFirstValue(spaces: string, jar: seq<Cookie>, name: string)
    requires forall i :: 0 <= i < |spaces| ==> spaces[i] == ' '
    requires WellFormedJar(jar) && ValidName(name)
    ensures FirstMatch(Split(spaces + Header(jar), ';'), name + "=") == FirstValue(jar, name)
    decreases |jar|
  {
    if jar == [] {
      ScanEmpty(spaces, name);
    } else {
      var e := spaces + Pair(jar[0]);
      EntryOfPair(spaces, jar[0], name);
      HeaderEntries(spaces, jar);
      var rest := if |jar| == 1 then [] else Split(" " + Header(jar[1..]), ';');
      if |jar| > 1 {
        ScanFindsFirstValue(" ", jar[1..], name);
      }
      assert ([e] + rest)[0] == e && ([e] + rest)[1..] == rest;
    }
  }

  /** `readCookie(name)` over the browser's `document.cookie` finds the first cookie of that name. */
  lemma ReadCookieFindsStoredValue(jar: seq<Cookie>, name: string)
    requires WellFormedJar(jar) && ValidName(name)
    ensures CookieValue(Header(jar), name) == FirstValue(jar, name)
  {
    ScanFindsFirstValue("", jar, name);
    assert "" + Header(jar) == Header(jar);
  }

  /**
   * The space after each `;` is skipped, and a cookie whose name merely ends
   * with the wanted name does not match.
   */
  lemma ReadCookieSkipsSpaces()
    ensures CookieValue("xy=1; y=2", "y") == Some("2")
  {
    var jar := [Cookie("xy", "1", 0), Cookie("y", "2", 0)];
    assert Header(jar) == "xy=1; y=2";
    assert WellFormedJar(jar);
    ReadCookieFindsStoredValue(jar, "y");
  }

  /** Reading a cookie back after `createCookie` gives the value kept by the browser. */
  lemma StoreThenRead(jar: seq<Cookie>, name: string, value: string, days: int)
    requires WellFormedJar(jar) && ValidName(name) && days >= 0
    ensures CookieValue(Header(Store(jar, name, value, days)), name) == Some(BeforeSemicolon(value))
  {
    StoreKeepsWellFormed(jar, name, value, days);
    var jar' := Store(jar, name, value, days);
    ReadCookieFindsStoredValue(jar', name);
    assert jar' == Upsert(jar, Cookie(name, BeforeSemicolon(value), days));
  }

  /** After `eraseCookie(name)`, `readCookie(name)` is null; other cookies read as before. */
  lemma EraseThenRead(jar: seq<Cookie>, name: string, other: string)
    requires WellFormedJar(jar) && ValidName(name) && ValidName(other) && other != name
    ensures CookieValue(Header(Store(jar, name, "", -1)), name) == None
    ensures CookieValue(Header(Store(jar, name, "", -1)), other) == CookieValue(Header(jar), other)
  {
    StoreKeepsWellFormed(jar, name, "", -1);
    ReadCookieFindsStoredValue(Store(jar, name, "", -1), name);
    ReadCookieFindsStoredValue(Store(jar, name, "", -1), other);
    ReadCookieFindsStoredValue(jar, other);
  }

  /** Writing one cookie leaves every other cookie reading as before. */
  lemma StoreKeepsOtherCookies(jar: seq<Cookie>, name: string, value: string, days: int, other: string)
    requires WellFormedJar(jar) && ValidName(name) && ValidName(other) && other != name
    ensures CookieValue(Header(Store(jar, name, value, days)), other) == CookieValue(Header(jar), other)
  {
    StoreKeepsWellFormed(jar, name, value, days);
    ReadCookieFindsStoredValue(Store(jar, name, value, days), other);
    ReadCookieFindsStoredValue(jar, other);
  }

  /** The browser's cookie store, updated in place by `createCookie` and `eraseCookie`. */
  class CookieJar {
    var cookies: seq<Cookie>

    ghost predicate Valid()
      reads this
    {
      WellFormedJar(cookies)
    }

    constructor (initial: seq<Cookie>)
      requires WellFormedJar(initial)
      ensures Valid() && cookies == initial
    {
      cookies := initial;
    }

    /** `readCookie(name)`: scans the entries of `document.cookie` one by one. */
    method ReadCookie(name: string) returns (r: Option<string>)
      ensures r == CookieValue(Header(cookies), name)
    {
      var nameEQ := name + "=";
      var ca := Split(Header(cookies), ';');
      var i := 0;
      while i < |ca|
        invariant 0 <= i <= |ca|
        invariant FirstMatch(ca[i..], nameEQ) == FirstMatch(ca, nameEQ)
      {
        var c := ca[i];
        while c != [] && c[0] == ' '
          invariant StripLeadingSpaces(c) == StripLeadingSpaces(ca[i])
          decreases |c|
        {
          c := c[1..];
        }
        assert ca[i..][0] == ca[i] && ca[i..][1..] == ca[i + 1..];
        if nameEQ <= c {
          return Some(c[|nameEQ|..]);
        }
        i := i + 1;
      }
      return None;
    }

    /** `createCookie(name, value, days)`: the browser applies the assignment string. */
    method CreateCookie(name: string, value: string, days: int)
      requires Valid() && ValidName(name)
      modifies this
      ensures Valid()
      ensures cookies == Store(old(cookies), name, value, days)
    {
      StoreKeepsWellFormed(cookies, name, value, days);
      cookies := Store(cookies, name, value, days);
    }

    /** `eraseCookie(name)`: `createCookie(name, "", -1)`. */
    method EraseCookie(name: string)
      requires Valid() && ValidName(name)
      modifies this
      ensures Valid()
      ensures cookies == Store(old(cookies), name, "", -1)
      ensures CookieValue(Header(cookies), name) == None
    {
      CreateCookie(name, "", -1);
      ReadCookieFindsStoredValue(cookies, name);
    }
  }
}
