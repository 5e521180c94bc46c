/** The identity headers: reading a principal, parsing its roles, and forwarding it on the next call. */
module Roles {
  import opened Wrappers
  import opened Lines

  // ---- parsing the roles header ----

  predicate IsDivider(c: char) {
    c == ',' || c == ' '
  }

  function TrimPrefix(s: string, c: char): string {
    if s != "" && s[0] == c then s[1..] else s
  }

  function TrimSuffix(s: string, c: char): string {
    if s != "" && s[|s| - 1] == c then s[..|s| - 1] else s
  }

  function FieldLength(s: string): (n: nat)
    ensures n <= |s|
    ensures forall k :: 0 <= k < n ==> !IsDivider(s[k])
    ensures s != "" && !IsDivider(s[0]) ==> n > 0
  {
    if s != "" && !IsDivider(s[0]) then 1 + FieldLength(s[1..]) else 0
  }

  /** strings.FieldsFunc: the maximal runs without a divider. */
  function Fields(s: string): seq<string>
    decreases |s|
  {
    if s == "" then []
    else if IsDivider(s[0]) then Fields(s[1..])
    else
      var n := FieldLength(s);
      [s[..n]] + Fields(s[n..])
  }

  /** The trimmed fields that are not empty. */
  function RolesOf(fields: seq<string>): seq<string> {
    if fields == [] then []
    else
      RolesOf(fields[..|fields| - 1])
      + if TrimSpace(fields[|fields| - 1]) != "" then [TrimSpace(fields[|fields| - 1])] else []
  }

  /** The header without white space around it and without one pair of brackets. */
  function Unwrapped(raw: string): string {
    TrimSuffix(TrimPrefix(TrimSpace(raw), '['), ']')
  }

  function RolesIn(raw: string): seq<string> {
    RolesOf(Fields(Unwrapped(raw)))
  }

  method ParseRoles(raw: string) returns (roles: seq<string>)
    ensures roles == RolesIn(raw)
  {
    var trimmed := TrimSpace(raw);
    trimmed := TrimPrefix(trimmed, '[');
    trimmed := TrimSuffix(trimmed, ']');
    roles := [];
    if trimmed == "" {
      return;
    }
    var fields := Fields(trimmed);
    for i := 0 to |fields|
      invariant roles == RolesOf(fields[..i])
    {
      var f := TrimSpace(fields[i]);
      assert fields[..i + 1][..i] == fields[..i];
      if f != "" {
        roles := roles + [f];
      }
    }
    assert fields[..|fields|] == fields;
  }

  // ---- what a role may be ----

  /** Not empty, no divider in it, no white space around it. */
  predicate IsPlain(role: string) {
    && role != ""
    && (forall k :: 0 <= k < |role| ==> !IsDivider(role[k]))
    && !IsSpace(role[0]) && !IsSpace(role[|role| - 1])
  }

  predicate ArePlain(roles: seq<string>) {
    forall i :: 0 <= i < |roles| ==> IsPlain(roles[i])
  }

  /** The roles put no bracket at either end of the list. */
  predicate EndsUnbracketed(roles: seq<string>) {
    roles != [] ==>
      && (roles[0] != "" ==> roles[0][0] != '[')
      && var last := roles[|roles| - 1];
         (last != "" ==> last[|last| - 1] != ']')
  }

  function JoinedBy(roles: seq<string>, sep: string): string {
    if |roles| == 0 then "" else if |roles| == 1 then roles[0] else roles[0] + sep + JoinedBy(roles[1..], sep)
  }

  // ---- every parsed role is plain ----

  lemma {:induction false} TrimmedEnds(s: string)
    ensures TrimLeft(s) != "" ==> !IsSpace(TrimLeft(s)[0])
    ensures TrimRight(s) != "" ==> !IsSpace(TrimRight(s)[|TrimRight(s)| - 1]) && TrimRight(s)[0] == s[0]
  {
    hide IsSpace;
    if s != "" && IsSpace(s[0]) {
      TrimmedEnds(s[1..]);
    }
    if s != "" && IsSpace(s[|s| - 1]) {
      TrimmedEnds(s[..|s| - 1]);
    }
  }

  lemma {:induction false} TrimLeftIsSuffix(s: string) returns (i: nat)
    ensures i <= |s| && TrimLeft(s) == s[i..]
  {
    hide IsSpace;
    i := 0;
    if s != "" && IsSpace(s[0]) {
      i := TrimLeftIsSuffix(s[1..]);
      assert s[1..][i..] == s[i + 1..];
      i := i + 1;
    }
  }

  lemma {:induction false} TrimRightIsPrefix(s: string) returns (j: nat)
    ensures j <= |s| && TrimRight(s) == s[..j]
  {
    hide IsSpace;
    j := |s|;
    if s != "" && IsSpace(s[|s| - 1]) {
      j := TrimRightIsPrefix(s[..|s| - 1]);
      assert s[..|s| - 1][..j] == s[..j];
    }
  }

  lemma TrimmedIsPlain(s: string)
    requires (forall k :: 0 <= k < |s| ==> !IsDivider(s[k])) && TrimSpace(s) != ""
    ensures IsPlain(TrimSpace(s))
  {
    hide IsSpace, IsDivider, TrimLeft, TrimRight;
    var i := TrimLeftIsSuffix(s);
    TrimmedEnds(s);
    var j := TrimRightIsPrefix(TrimLeft(s));
    TrimmedEnds(TrimLeft(s));
  }

  lemma {:induction false} FieldsHaveNoDivider(s: string)
    ensures forall f, k :: f in Fields(s) && 0 <= k < |f| ==> !IsDivider(f[k])
    decreases |s|
  {
    hide IsDivider;
    if s == "" {
    } else if IsDivider(s[0]) {
      FieldsHaveNoDivider(s[1..]);
    } else {
      FieldsHaveNoDivider(s[FieldLength(s)..]);
    }
  }

  lemma {:induction false} RolesOfArePlain(fields: seq<string>)
    requires forall f, k :: f in fields && 0 <= k < |f| ==> !IsDivider(f[k])
    ensures ArePlain(RolesOf(fields))
  {
    hide IsPlain, IsDivider, TrimSpace;
    if fields != [] {
      var front, last := fields[..|fields| - 1], fields[|fields| - 1];
      assert last in fields && forall f :: f in front ==> f in fields;
      RolesOfArePlain(front);
      if TrimSpace(last) != "" {
        TrimmedIsPlain(last);
      }
    }
  }

  /** Whatever the header holds, the parsed roles are plain. */
  lemma ParsedArePlain(raw: string)
    ensures ArePlain(RolesIn(raw))
  {
    FieldsHaveNoDivider(Unwrapped(raw));
    RolesOfArePlain(Fields(Unwrapped(raw)));
  }

  // ---- plain roles parse back ----

  lemma {:induction false} FieldLengthIs(role: string, rest: string)
    requires forall k :: 0 <= k < |role| ==> !IsDivider(role[k])
    requires rest == "" || IsDivider(rest[0])
    ensures FieldLength(role + rest) == |role|
  {
    hide IsDivider;
    if role == "" {
      assert role + rest == rest;
    } else {
      assert (role + rest)[1..] == role[1..] + rest;
      FieldLengthIs(role[1..], rest);
    }
  }

  lemma FieldsOfRole(role: string, rest: string)
    requires IsPlain(role) && (rest == "" || IsDivider(rest[0]))
    ensures Fields(role + rest) == [role] + Fields(rest)
  {
    hide IsDivider, IsSpace;
    FieldLengthIs(role, rest);
    assert (role + rest)[..|role|] == role && (role + rest)[|role|..] == rest && (role + rest)[0] == role[0];
  }

  lemma {:induction false} FieldsOfJoined(roles: seq<string>, c: char)
    requires ArePlain(roles) && IsDivider(c)
    ensures Fields(JoinedBy(roles, [c])) == roles
  {
    hide IsPlain, IsDivider;
    if |roles| == 0 {
    } else if |roles| == 1 {
      assert roles[0] + "" == roles[0] && roles == [roles[0]];
      FieldsOfRole(roles[0], "");
    } else {
      var rest := JoinedBy(roles[1..], [c]);
      FieldsOfJoined(roles[1..], c);
      assert roles[0] + [c] + rest == roles[0] + ([c] + rest);
      FieldsOfRole(roles[0], [c] + rest);
      assert ([c] + rest)[1..] == rest;
      assert roles == [roles[0]] + roles[1..];
    }
  }

  lemma {:induction false} RolesOfPlain(roles: seq<string>)
    requires ArePlain(roles)
    ensures RolesOf(roles) == roles
  {
    hide IsSpace, IsDivider;
    if roles != [] {
      var front, last := roles[..|roles| - 1], roles[|roles| - 1];
      RolesOfPlain(front);
      TrimOfTrimmed(last);
      assert roles == front + [last];
    }
  }

  lemma FieldsOfField(field: string, rest: string)
    requires field != "" && (forall k :: 0 <= k < |field| ==> !IsDivider(field[k])) && (rest == "" || IsDivider(rest[0]))
    ensures Fields(field + rest) == [field] + Fields(rest)
  {
    hide IsDivider;
    FieldLengthIs(field, rest);
    var s := field + rest;
    assert s[..|field|] == field && s[|field|..] == rest && s[0] == field[0];
  }

  lemma FieldsOfDivider(c: char, rest: string)
    requires IsDivider(c)
    ensures Fields([c] + rest) == Fields(rest)
  {
    hide IsDivider;
    assert ([c] + rest)[1..] == rest;
  }

  /** A comma or a space divides the fields of a text, */
  lemma {:induction false} FieldsDivide(a: string, c: char, b: string)
    requires c == ',' || c == ' '
    ensures Fields(a + [c] + b) == Fields(a) + Fields(b)
    decreases |a|
  {
    Dividers(c);
    hide IsDivider, Fields;
    if a == "" {
      assert a + [c] + b == [c] + b;
      FieldsOfDivider(c, b);
      assert Fields("") == [] by { FieldsOfNothing(); }
    } else {
      var n := if IsDivider(a[0]) then 1 else FieldLength(a);
      var tail := a[n..] + [c] + b;
      FieldsDivide(a[n..], c, b);
      CutInFront(a, n, [c], b);
      if IsDivider(a[0]) {
        assert a[..n] == [a[0]];
        FieldsOfDivider(a[0], tail);
        FieldsOfDivider(a[0], a[n..]);
      } else {
        FieldLengthMaximal(a);
        FieldsOfField(a[..n], tail);
        FieldsOfField(a[..n], a[n..]);
      }
    }
  }

  lemma CutInFront(a: string, n: nat, middle: string, b: string)
    requires n <= |a|
    ensures a == a[..n] + a[n..] && a + middle + b == a[..n] + (a[n..] + middle + b)
  {
  }

  lemma FieldsOfNothing()
    ensures Fields("") == []
  {
  }

  /** and a text with neither is one field. */
  lemma OneField(a: string)
    requires a != "" && ',' !in a && ' ' !in a
    ensures Fields(a) == [a]
  {
    hide IsDivider, Fields;
    forall k | 0 <= k < |a| ensures !IsDivider(a[k]) {
      Dividers(a[k]);
    }
    assert a + "" == a;
    FieldsOfField(a, "");
    FieldsOfNothing();
  }

  lemma Dividers(c: char)
    ensures IsDivider(c) <==> c in ", "
  {
  }

  lemma {:induction false} FieldLengthMaximal(s: string)
    ensures FieldLength(s) < |s| ==> IsDivider(s[FieldLength(s)])
  {
    hide IsDivider;
    if s != "" && !IsDivider(s[0]) {
      FieldLengthMaximal(s[1..]);
    }
  }

  /** A plain role is one that could be written alone: no comma, no space, and no white space at an end. */
  lemma PlainRoles(role: string)
    ensures IsPlain(role) <==>
      role != "" && ',' !in role && ' ' !in role && !IsSpace(role[0]) && !IsSpace(role[|role| - 1])
  {
  }

  /** Go's printed form of a slice parses back exactly when every role is plain. */
  lemma BracketedRoundTrip(roles: seq<string>)
    ensures RolesIn("[" + JoinedBy(roles, " ") + "]") == roles <==> ArePlain(roles)
  {
    var joined := JoinedBy(roles, " ");
    var raw := "[" + joined + "]";
    assert raw[0] == '[' && raw[|raw| - 1] == ']';
    TrimOfTrimmed(raw);
    assert raw[1..] == joined + "]" && (joined + "]")[..|joined|] == joined;
    if ArePlain(roles) {
      FieldsOfJoined(roles, ' ');
      RolesOfPlain(roles);
    } else {
      ParsedArePlain(raw);
    }
  }

  lemma {:induction false} JoinedEnds(roles: seq<string>, sep: string)
    requires roles != [] && ArePlain(roles)
    ensures var s := JoinedBy(roles, sep);
            && s != "" && s[0] == roles[0][0]
            && s[|s| - 1] == roles[|roles| - 1][|roles[|roles| - 1]| - 1]
  {
    hide IsSpace, IsDivider;
    if |roles| > 1 {
      JoinedEnds(roles[1..], sep);
    }
  }

  // ---- a bracket at an end of the list is lost ----

  /** How many characters are not dividers. */
  function Weight(s: string): nat {
    if s == "" then 0 else (if IsDivider(s[0]) then 0 else 1) + Weight(s[1..])
  }

  function TotalWeight(parts: seq<string>): nat {
    if parts == [] then 0 else TotalWeight(parts[..|parts| - 1]) + Weight(parts[|parts| - 1])
  }

  lemma {:induction false} WeightConcat(a: string, b: string)
    ensures Weight(a + b) == Weight(a) + Weight(b)
  {
    if a == "" {
      assert a + b == b;
    } else {
      assert (a + b)[1..] == a[1..] + b;
      WeightConcat(a[1..], b);
    }
  }

  lemma {:induction false} TotalWeightOfCons(first: string, rest: seq<string>)
    ensures TotalWeight([first] + rest) == Weight(first) + TotalWeight(rest)
  {
    var all := [first] + rest;
    if rest == [] {
      assert all[..|all| - 1] == [];
    } else {
      assert all[..|all| - 1] == [first] + rest[..|rest| - 1];
      TotalWeightOfCons(first, rest[..|rest| - 1]);
    }
  }

  lemma {:induction false} FieldsWeigh(s: string)
    ensures TotalWeight(Fields(s)) == Weight(s)
    decreases |s|
  {
    if s == "" {
    } else if IsDivider(s[0]) {
      FieldsWeigh(s[1..]);
    } else {
      var n := FieldLength(s);
      FieldsWeigh(s[n..]);
      TotalWeightOfCons(s[..n], Fields(s[n..]));
      assert s == s[..n] + s[n..];
      WeightConcat(s[..n], s[n..]);
    }
  }

  lemma PartsWeighLess(s: string, i: nat)
    requires i <= |s|
    ensures Weight(s[i..]) <= Weight(s) && Weight(s[..i]) <= Weight(s)
  {
    assert s == s[..i] + s[i..];
    WeightConcat(s[..i], s[i..]);
  }

  lemma TrimWeighsLess(s: string)
    ensures Weight(TrimSpace(s)) <= Weight(s)
  {
    hide IsSpace, IsDivider, TrimLeft, TrimRight, Weight;
    var i := TrimLeftIsSuffix(s);
    PartsWeighLess(s, i);
    var j := TrimRightIsPrefix(TrimLeft(s));
    PartsWeighLess(TrimLeft(s), j);
  }

  lemma TotalWeightOfSnoc(front: seq<string>, last: string)
    ensures TotalWeight(front + [last]) == TotalWeight(front) + Weight(last)
  {
    hide Weight;
    assert (front + [last])[..|front + [last]| - 1] == front;
  }

  lemma {:induction false} RolesOfWeighLess(fields: seq<string>)
    ensures TotalWeight(RolesOf(fields)) <= TotalWeight(fields)
  {
    hide TrimSpace, Weight;
    if fields != [] {
      var front, last := fields[..|fields| - 1], fields[|fields| - 1];
      RolesOfWeighLess(front);
      TrimWeighsLess(last);
      if TrimSpace(last) != "" {
        TotalWeightOfSnoc(RolesOf(front), TrimSpace(last));
      } else {
        assert RolesOf(fields) == RolesOf(front);
      }
    }
  }

  lemma {:induction false} JoinedWeighs(roles: seq<string>)
    ensures Weight(JoinedBy(roles, ",")) == TotalWeight(roles)
  {
    if |roles| == 1 {
      assert roles[..0] == [];
    } else if |roles| > 1 {
      JoinedWeighs(roles[1..]);
      WeightConcat(roles[0] + ",", JoinedBy(roles[1..], ","));
      WeightConcat(roles[0], ",");
      assert roles == [roles[0]] + roles[1..];
      TotalWeightOfCons(roles[0], roles[1..]);
    }
  }

  /** A trimmed header with a bracket at an end weighs more than what is left without it. */
  lemma UnwrappingTakesBracket(raw: string)
    requires raw != "" && TrimSpace(raw) == raw && (raw[0] == '[' || raw[|raw| - 1] == ']')
    ensures Weight(Unwrapped(raw)) < Weight(raw)
  {
    hide TrimSpace, Weight, TrimPrefix, TrimSuffix;
    PrefixWeighs(raw);
    SuffixWeighs(TrimPrefix(raw, '['));
    assert raw[0] != '[' ==> TrimPrefix(raw, '[') == raw by { PrefixStays(raw); }
  }

  lemma PrefixStays(s: string)
    ensures s != "" && s[0] != '[' ==> TrimPrefix(s, '[') == s
  {
  }

  lemma PrefixWeighs(s: string)
    ensures Weight(TrimPrefix(s, '[')) <= Weight(s)
    ensures s != "" && s[0] == '[' ==> Weight(TrimPrefix(s, '[')) < Weight(s)
  {
    hide Weight;
    BracketsWeighOne();
    if s != "" && s[0] == '[' {
      assert s == "[" + s[1..];
      WeightConcat("[", s[1..]);
    }
  }

  lemma SuffixWeighs(s: string)
    ensures Weight(TrimSuffix(s, ']')) <= Weight(s)
    ensures s != "" && s[|s| - 1] == ']' ==> Weight(TrimSuffix(s, ']')) < Weight(s)
  {
    hide Weight;
    BracketsWeighOne();
    if s != "" && s[|s| - 1] == ']' {
      var front := s[..|s| - 1];
      assert s == front + "]";
      WeightConcat(front, "]");
    }
  }

  lemma BracketsWeighOne()
    ensures Weight("[") == 1 && Weight("]") == 1
  {
  }

  /** The comma form parses back exactly when every role is plain and no bracket stands at an end of the list. */
  lemma CommaRoundTrip(roles: seq<string>)
    ensures RolesIn(JoinedBy(roles, ",")) == roles <==> ArePlain(roles) && EndsUnbracketed(roles)
  {
    hide RolesIn, IsPlain, JoinedBy, EndsUnbracketed;
    ParsedArePlain(JoinedBy(roles, ","));
    if ArePlain(roles) {
      if EndsUnbracketed(roles) {
        UnbracketedParsesBack(roles);
      } else {
        BracketIsLost(roles);
      }
    }
  }

  lemma UnbracketedParsesBack(roles: seq<string>)
    requires ArePlain(roles) && EndsUnbracketed(roles)
    ensures RolesIn(JoinedBy(roles, ",")) == roles
  {
    hide Fields, RolesOf, IsSpace, IsDivider, TrimSpace;
    var raw := JoinedBy(roles, ",");
    if roles == [] {
      assert TrimSpace("") == "" by { TrimOfTrimmed(""); }
    } else {
      JoinedEnds(roles, ",");
      TrimOfTrimmed(raw);
    }
    assert IsDivider(',') by { CommaDivides(); }
    FieldsOfJoined(roles, ',');
    RolesOfPlain(roles);
  }

  lemma CommaDivides()
    ensures IsDivider(',')
  {
  }

  lemma BracketIsLost(roles: seq<string>)
    requires ArePlain(roles) && !EndsUnbracketed(roles)
    ensures RolesIn(JoinedBy(roles, ",")) != roles
  {
    hide Fields, RolesOf, IsSpace, IsDivider, TrimSpace, Unwrapped, Weight;
    var raw := JoinedBy(roles, ",");
    JoinedEnds(roles, ",");
    TrimOfTrimmed(raw);
    UnwrappingTakesBracket(raw);
    JoinedWeighs(roles);
    FieldsWeigh(Unwrapped(raw));
    RolesOfWeighLess(Fields(Unwrapped(raw)));
  }

  // ---- the headers ----

  const USER_ID := "X-User-Id"
  const ORG_ID := "X-Org-Id"
  const ROLES := "X-Roles"

  /** http.Header: the values of each canonical name. */
  type Headers = map<string, seq<string>>

  function Get(h: Headers, name: string): string {
    if name in h && h[name] != [] then h[name][0] else ""
  }

  datatype Principal = Principal(userId: string, orgId: string, roles: seq<string>)

  function Read(h: Headers): Principal {
    Principal(Get(h, USER_ID), Get(h, ORG_ID), RolesIn(Get(h, ROLES)))
  }

  /** The value of each identity header for a principal. */
  function Identity(p: Principal): map<string, string> {
    map[USER_ID := p.userId, ORG_ID := p.orgId, ROLES := JoinedBy(p.roles, ",")]
  }

  /** The headers with every identity value that is not empty set. */
  function Forwarded(h: Headers, p: Principal): Headers {
    h + map name | name in Identity(p) && Identity(p)[name] != "" :: [Identity(p)[name]]
  }

  /** What a header of the clone holds once the named values are set. */
  function ValuesOf(h: Headers, values: map<string, string>, names: set<string>, k: string): Option<seq<string>> {
    if k in values && k in names && values[k] != "" then Some([values[k]])
    else if k in h then Some(h[k]) else None
  }

  ghost predicate HasSet(sent: Headers, h: Headers, values: map<string, string>, names: set<string>) {
    forall k :: ValuesOf(h, values, names, k) == if k in sent then Some(sent[k]) else None
  }

  lemma NoneIsSet(h: Headers, values: map<string, string>)
    ensures HasSet(h, h, values, {})
  {
  }

  lemma SetOneMore(sent: Headers, h: Headers, values: map<string, string>, names: set<string>, name: string)
    requires HasSet(sent, h, values, names) && name in values
    ensures HasSet(if values[name] != "" then sent[name := [values[name]]] else sent, h, values, names + {name})
  {
    var after := if values[name] != "" then sent[name := [values[name]]] else sent;
    forall k ensures ValuesOf(h, values, names + {name}, k) == if k in after then Some(after[k]) else None {
      assert ValuesOf(h, values, names, k) == if k in sent then Some(sent[k]) else None;
    }
  }

  lemma AllSetIsForwarded(sent: Headers, h: Headers, p: Principal)
    requires HasSet(sent, h, Identity(p), Identity(p).Keys)
    ensures sent == Forwarded(h, p)
  {
    hide Identity;
    forall k ensures k in sent <==> k in Forwarded(h, p)
             ensures k in sent ==> sent[k] == Forwarded(h, p)[k] {
      assert ValuesOf(h, Identity(p), Identity(p).Keys, k) == if k in sent then Some(sent[k]) else None;
    }
  }

  /** An outgoing request; its context may hold the caller's principal. */
  class Request {
    const principal: Option<Principal>
    var headers: Headers

    constructor (principal: Option<Principal>, headers: Headers)
      ensures this.principal == principal && this.headers == headers
    {
      this.principal := principal;
      this.headers := headers;
    }

    method Set(name: string, value: string)
      modifies this
      ensures headers == old(headers)[name := [value]]
    {
      headers := headers[name := [value]];
    }

    /** What the base transport sends: this request without a principal, and a clone with its headers set otherwise.
        The headers are set in no particular order. */
    method RoundTrip() returns (sent: Request)
      ensures unchanged(this)
      ensures principal.None? ==> sent == this
      ensures principal.Some? ==> fresh(sent) && sent.headers == Forwarded(headers, principal.value)
    {
      hide HasSet, Identity;
      sent := this;
      if principal.Some? {
        sent := new Request(principal, headers);
        var values := Identity(principal.value);
        var todo := values.Keys;
        assert values.Keys - todo == {};
        assert HasSet(headers, headers, values, {}) by { NoneIsSet(headers, values); }
        while todo != {}
          invariant fresh(sent) && todo <= values.Keys
          invariant HasSet(sent.headers, headers, values, values.Keys - todo)
          decreases todo
        {
          var name :| name in todo;
          SetOneMore(sent.headers, headers, values, values.Keys - todo, name);
          assert values.Keys - (todo - {name}) == values.Keys - todo + {name};
          if values[name] != "" {
            sent.Set(name, values[name]);
          }
          todo := todo - {name};
        }
        assert values.Keys - {} == values.Keys;
        AllSetIsForwarded(sent.headers, headers, principal.value);
      }
    }
  }

  // ---- identity over a hop ----

  lemma ForwardedGet(h: Headers, p: Principal)
    ensures Get(Forwarded(h, p), USER_ID) == if p.userId != "" then p.userId else Get(h, USER_ID)
    ensures Get(Forwarded(h, p), ORG_ID) == if p.orgId != "" then p.orgId else Get(h, ORG_ID)
    ensures Get(Forwarded(h, p), ROLES) ==
            if JoinedBy(p.roles, ",") != "" then JoinedBy(p.roles, ",") else Get(h, ROLES)
  {
    assert USER_ID != ORG_ID && USER_ID != ROLES && ORG_ID != ROLES;
    assert Identity(p)[USER_ID] == p.userId && Identity(p)[ORG_ID] == p.orgId;
  }

  /** The identity travels in three headers, and an empty value sets none. */
  lemma IdentityHeaders(h: Headers, p: Principal)
    ensures p.userId != "" ==> "X-User-Id" in Forwarded(h, p) && Forwarded(h, p)["X-User-Id"] == [p.userId]
    ensures p.orgId != "" ==> "X-Org-Id" in Forwarded(h, p) && Forwarded(h, p)["X-Org-Id"] == [p.orgId]
    ensures JoinedBy(p.roles, ",") != "" ==>
      "X-Roles" in Forwarded(h, p) && Forwarded(h, p)["X-Roles"] == [JoinedBy(p.roles, ",")]
    ensures p.userId == "" && "X-User-Id" !in h ==> "X-User-Id" !in Forwarded(h, p)
    ensures p.orgId == "" && "X-Org-Id" !in h ==> "X-Org-Id" !in Forwarded(h, p)
    ensures JoinedBy(p.roles, ",") == "" && "X-Roles" !in h ==> "X-Roles" !in Forwarded(h, p)
  {
    assert USER_ID != ORG_ID && USER_ID != ROLES && ORG_ID != ROLES;
    assert Identity(p)[USER_ID] == p.userId && Identity(p)[ORG_ID] == p.orgId;
    assert USER_ID == "X-User-Id" && ORG_ID == "X-Org-Id" && ROLES == "X-Roles";
  }

  /** A principal is read from the first value of each of the three headers. */
  lemma ReadHeaders(user: seq<string>, org: seq<string>, roles: seq<string>)
    ensures Read(map["X-User-Id" := ["u"] + user, "X-Org-Id" := ["o"] + org, "X-Roles" := ["r"] + roles])
         == Principal("u", "o", RolesIn("r"))
    ensures Read(map[]) == Principal("", "", RolesIn(""))
  {
    hide RolesIn;
    assert USER_ID != ORG_ID && USER_ID != ROLES && ORG_ID != ROLES;
    assert USER_ID == "X-User-Id" && ORG_ID == "X-Org-Id" && ROLES == "X-Roles";
  }

  /** The next service reads the same principal exactly when the roles parse back, and the request had no header of its
      own where the principal has nothing to send. */
  lemma IdentitySurvivesHop(h: Headers, p: Principal)
    ensures Read(Forwarded(h, p)) == p <==>
            && (p.userId == "" ==> Get(h, USER_ID) == "")
            && (p.orgId == "" ==> Get(h, ORG_ID) == "")
            && (p.roles == [] ==> RolesIn(Get(h, ROLES)) == [])
            && ArePlain(p.roles) && EndsUnbracketed(p.roles)
  {
    hide RolesIn, Forwarded;
    ForwardedGet(h, p);
    CommaRoundTrip(p.roles);
    ParsedArePlain(Get(h, ROLES));
    if JoinedBy(p.roles, ",") == "" && ArePlain(p.roles) && p.roles != [] {
      JoinedEnds(p.roles, ",");
    }
  }

  predicate NoIdentity(h: Headers) {
    USER_ID !in h && ORG_ID !in h && ROLES !in h
  }

  /** On a request without identity headers only the roles matter. */
  lemma IdentitySurvives(h: Headers, p: Principal)
    requires NoIdentity(h)
    ensures Read(Forwarded(h, p)) == p <==> ArePlain(p.roles) && EndsUnbracketed(p.roles)
  {
    IdentitySurvivesHop(h, p);
  }

  /** A principal read from headers is forwarded unchanged unless a bracket stands at an end of its roles. */
  lemma ReadThenForward(received: Headers, h: Headers)
    requires NoIdentity(h)
    ensures Read(Forwarded(h, Read(received))) == Read(received) <==> EndsUnbracketed(Read(received).roles)
  {
    ParsedArePlain(Get(received, ROLES));
    IdentitySurvives(h, Read(received));
  }

  // ---- a header without roles ----

  predicate IsBlank(s: string) {
    forall k :: 0 <= k < |s| ==> IsSpace(s[k])
  }

  predicate AreBlank(fields: seq<string>) {
    forall i :: 0 <= i < |fields| ==> IsBlank(fields[i])
  }

  lemma AreBlankConcat(a: seq<string>, b: seq<string>)
    ensures AreBlank(a + b) <==> AreBlank(a) && AreBlank(b)
  {
    hide IsBlank;
    assert forall i :: 0 <= i < |a| ==> (a + b)[i] == a[i];
    assert forall i :: 0 <= i < |b| ==> (a + b)[|a| + i] == b[i];
    if AreBlank(a + b) {
      forall i | 0 <= i < |b| ensures IsBlank(b[i]) {
        assert IsBlank((a + b)[|a| + i]);
      }
    }
  }

  lemma NothingBlank()
    ensures AreBlank([])
  {
  }

  lemma OneBlank(field: string)
    ensures AreBlank([field]) <==> IsBlank(field)
  {
    hide IsBlank;
    assert [field][0] == field;
  }

  /** Only dividers and white space. */
  predicate IsEmptyList(s: string) {
    forall k :: 0 <= k < |s| ==> IsDivider(s[k]) || IsSpace(s[k])
  }

  lemma TrimmedAwayIffBlank(s: string)
    ensures TrimSpace(s) == "" <==> IsBlank(s)
  {
    hide IsSpace;
    TrimLeftOfBlank(s);
    var t := TrimLeft(s);
    TrimmedEnds(s);
    TrimRightKeepsFirst(t);
  }

  lemma {:induction false} TrimLeftOfBlank(s: string)
    ensures TrimLeft(s) == "" <==> IsBlank(s)
  {
    hide IsSpace;
    if s != "" && IsSpace(s[0]) {
      TrimLeftOfBlank(s[1..]);
      assert s == [s[0]] + s[1..];
    }
  }

  lemma {:induction false} TrimRightKeepsFirst(s: string)
    requires s != "" ==> !IsSpace(s[0])
    ensures s != "" ==> TrimRight(s) != ""
  {
    hide IsSpace;
    if |s| > 1 && IsSpace(s[|s| - 1]) {
      TrimRightKeepsFirst(s[..|s| - 1]);
    }
  }

  lemma {:induction false} NoRolesIffBlank(fields: seq<string>)
    ensures RolesOf(fields) == [] <==> AreBlank(fields)
  {
    hide TrimSpace, IsBlank, AreBlank;
    assert AreBlank([]) by { NothingBlank(); }
    if fields != [] {
      var front, last := fields[..|fields| - 1], fields[|fields| - 1];
      NoRolesIffBlank(front);
      TrimmedAwayIffBlank(last);
      assert fields == front + [last];
      AreBlankConcat(front, [last]);
      OneBlank(last);
    }
  }

  lemma {:induction false} BlankFieldsIff(s: string)
    ensures AreBlank(Fields(s)) <==> IsEmptyList(s)
    decreases |s|
  {
    hide IsSpace, IsDivider, IsEmptyList, IsBlank, AreBlank;
    assert IsEmptyList("") by { NothingUnwrapped(); }
    assert AreBlank([]) by { NothingBlank(); }
    if s == "" {
    } else if IsDivider(s[0]) {
      BlankFieldsIff(s[1..]);
      EmptyListParts([s[0]], s[1..]);
      assert IsEmptyList([s[0]]) by { OneDivider(s[0]); }
      assert s == [s[0]] + s[1..];
    } else {
      var n := FieldLength(s);
      var field, rest := s[..n], s[n..];
      BlankFieldsIff(rest);
      assert Fields(s) == [field] + Fields(rest);
      AreBlankConcat([field], Fields(rest));
      OneBlank(field);
      EmptyListParts(field, rest);
      assert s == field + rest;
      assert IsBlank(field) <==> IsEmptyList(field) by { UndividedIsBlank(field); }
    }
  }

  lemma UndividedIsBlank(field: string)
    requires forall k :: 0 <= k < |field| ==> !IsDivider(field[k])
    ensures IsBlank(field) <==> IsEmptyList(field)
  {
    hide IsSpace, IsDivider;
  }

  lemma EmptyListParts(a: string, b: string)
    ensures IsEmptyList(a + b) <==> IsEmptyList(a) && IsEmptyList(b)
  {
    hide IsSpace, IsDivider;
    assert forall k :: 0 <= k < |a| ==> (a + b)[k] == a[k];
    assert forall k :: 0 <= k < |b| ==> (a + b)[|a| + k] == b[k];
    if IsEmptyList(a + b) {
      forall k | 0 <= k < |b| ensures IsDivider(b[k]) || IsSpace(b[k]) {
        assert IsDivider((a + b)[|a| + k]) || IsSpace((a + b)[|a| + k]);
      }
    }
  }

  /** A header names no role exactly when only dividers and white space stand between its brackets. */
  lemma NoRolesIff(raw: string)
    ensures RolesIn(raw) == [] <==> IsEmptyList(Unwrapped(raw))
  {
    hide Fields, RolesOf, Unwrapped, AreBlank, IsEmptyList;
    NoRolesIffBlank(Fields(Unwrapped(raw)));
    BlankFieldsIff(Unwrapped(raw));
  }

  /** The callee of a request without a principal, which is sent as it is, sees nobody exactly when no identity header of
      its own holds anything; what the context lacks is not taken away. */
  lemma AnonymousIff(h: Headers)
    ensures Read(h) == Principal("", "", []) <==>
            Get(h, USER_ID) == "" && Get(h, ORG_ID) == "" && IsEmptyList(Unwrapped(Get(h, ROLES)))
    ensures NoIdentity(h) ==> Read(h) == Principal("", "", [])
  {
    hide RolesIn, Unwrapped, IsEmptyList;
    NoRolesIff(Get(h, ROLES));
    NoRolesIff("");
    assert IsEmptyList(Unwrapped("")) by { NothingUnwrapped(); }
  }

  lemma NothingUnwrapped()
    ensures Unwrapped("") == "" && IsEmptyList("")
  {
    TrimOfTrimmed("");
  }

  lemma OneDivider(c: char)
    requires IsDivider(c)
    ensures IsEmptyList([c])
  {
  }

  /** Other headers reach the callee as they were. */
  lemma OtherHeadersAreKept(h: Headers, p: Principal, name: string)
    requires name !in {USER_ID, ORG_ID, ROLES}
    ensures name in Forwarded(h, p) <==> name in h
    ensures name in h ==> Forwarded(h, p)[name] == h[name]
  {
  }

  /** A header already on the request passes for the caller's own when the caller has no value for it. */
  lemma StaleHeaderIsForwarded()
    ensures Read(Forwarded(map[USER_ID := ["u1"]], Principal("", "", []))).userId == "u1"
  {
    ForwardedGet(map[USER_ID := ["u1"]], Principal("", "", []));
  }
}
