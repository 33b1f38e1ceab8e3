/** The panel's and the API's permission sets, and the scan that resolves a bearer token. */
module Permissions {
  import opened Common

  const ALL := "*"

  /** What a configured list means: a permission is granted by the wildcard or by its own name, each
      entry read without the space around it. */
  ghost predicate Grants(permissions: seq<string>, name: string) {
    exists i :: 0 <= i < |permissions| &&
      (TrimSpace(permissions[i]) == "*" || (TrimSpace(permissions[i]) == name && name != ""))
  }

  // ---- The panel's set --------------------------------------------------------------------

  datatype PanelPermissions = PanelPermissions(all: bool, names: set<string>, list: seq<string>)
  {
    predicate Has(permission: string) {
      all || permission in names
    }

    function List(): seq<string> {
      list
    }
  }

  /** The names a list configures. */
  function NamesOf(permissions: seq<string>): set<string> {
    if permissions == [] then {}
    else
      var p := TrimSpace(permissions[|permissions| - 1]);
      NamesOf(permissions[..|permissions| - 1]) + if p == "" then {} else {p}
  }

  lemma {:induction false} NamesOfExact(permissions: seq<string>, name: string)
    ensures name in NamesOf(permissions) <==>
              name != "" && exists i :: 0 <= i < |permissions| && TrimSpace(permissions[i]) == name
  {
    if permissions != [] {
      var n := |permissions| - 1;
      NamesOfExact(permissions[..n], name);
      assert forall i :: 0 <= i < n ==> permissions[..n][i] == permissions[i];
    }
  }

  lemma NamesOfMore(permissions: seq<string>, i: nat)
    requires i < |permissions|
    ensures NamesOf(permissions[..i + 1]) ==
            NamesOf(permissions[..i]) + if TrimSpace(permissions[i]) == "" then {} else {TrimSpace(permissions[i])}
  {
    assert permissions[..i + 1][..i] == permissions[..i];
  }

  function TrimAll(permissions: seq<string>): seq<string> {
    seq(|permissions|, i requires 0 <= i < |permissions| => TrimSpace(permissions[i]))
  }

  /** newPanelPermissions: the list holds each name once, in the order first configured. */
  method NewPanelPermissions(permissions: seq<string>) returns (p: PanelPermissions)
    ensures p.names == NamesOf(permissions) && (p.all <==> ALL in p.names)
    ensures p.list == Firsts(TrimAll(permissions), "")
    ensures (forall n :: n in p.list <==> n in p.names) && forall i, j :: 0 <= i < j < |p.list| ==>
              p.list[i] != p.list[j]
  {
    var all, names, list := false, {}, [];
    for i := 0 to |permissions|
      invariant names == NamesOf(permissions[..i]) && (all <==> ALL in names)
      invariant (forall n :: n in list <==> n in names) && list == Firsts(TrimAll(permissions)[..i], "")
    {
      NamesOfMore(permissions, i);
      FirstsMore(TrimAll(permissions), "", i);
      var permission := TrimSpace(permissions[i]);
      if permission != "" {
        if permission in names {
          assert names + {permission} == names;
        } else {
          if permission == ALL {
            all := true;
          }
          names := names + {permission};
          list := list + [permission];
        }
      }
    }
    assert permissions[..|permissions|] == permissions;
    assert TrimAll(permissions)[..|permissions|] == TrimAll(permissions);
    FirstsExact(TrimAll(permissions), "");
    p := PanelPermissions(all, names, list);
  }

  // ---- The API's set ----------------------------------------------------------------------

  datatype PermissionSet = PermissionSet(all: bool, names: set<string>)
  {
    predicate Has(permission: string) {
      all || permission in names
    }
  }

  /** newPermissionSet: the wildcard is kept apart from the names. */
  method NewPermissionSet(permissions: seq<string>) returns (p: PermissionSet)
    ensures p.names + (if p.all then {ALL} else {}) == NamesOf(permissions) && ALL !in p.names
  {
    var all, names := false, {};
    for i := 0 to |permissions|
      invariant names + (if all then {ALL} else {}) == NamesOf(permissions[..i]) && ALL !in names
    {
      NamesOfMore(permissions, i);
      var permission := TrimSpace(permissions[i]);
      if permission == "" {
        continue;
      }
      if permission == ALL {
        all := true;
        continue;
      }
      names := names + {permission};
    }
    assert permissions[..|permissions|] == permissions;
    p := PermissionSet(all, names);
  }

  lemma GrantsExactly(permissions: seq<string>, name: string)
    ensures Grants(permissions, name) <==> ALL in NamesOf(permissions) || name in NamesOf(permissions)
  {
    NamesOfExact(permissions, ALL);
    NamesOfExact(permissions, name);
  }

  /** Both sets answer every question as the configured list means it, hence alike; and the set built
      again from the panel's own list answers as before. */
  method AnswersAgree(permissions: seq<string>, name: string) returns (panel: bool, api: bool, again: bool)
    ensures panel <==> Grants(permissions, name)
    ensures api <==> Grants(permissions, name)
    ensures again <==> Grants(permissions, name)
  {
    var p := NewPanelPermissions(permissions);
    var q := NewPermissionSet(permissions);
    var r := NewPanelPermissions(p.List());
    GrantsExactly(permissions, name);
    ListRebuilds(p, permissions);
    panel, api, again := p.Has(name), q.Has(name), r.Has(name);
  }

  lemma ListRebuilds(p: PanelPermissions, permissions: seq<string>)
    requires p.names == NamesOf(permissions) && forall n :: n in p.list <==> n in p.names
    ensures NamesOf(p.list) == p.names
  {
    forall n | n in p.names
      ensures TrimSpace(n) == n && n != ""
    {
      NamesOfExact(permissions, n);
      var i :| 0 <= i < |permissions| && TrimSpace(permissions[i]) == n;
      TrimSpaceIsTrimmed(permissions[i]);
      TrimmedIsFixed(n);
    }
    forall n
      ensures n in NamesOf(p.list) <==> n in p.names
    {
      NamesOfExact(p.list, n);
      assert forall i :: 0 <= i < |p.list| ==> p.list[i] in p.list;
      if n in p.names {
        assert n in p.list;
        var i :| 0 <= i < |p.list| && p.list[i] == n;
        assert TrimSpace(p.list[i]) == n;
      }
    }
  }

  // ---- Resolving a token ------------------------------------------------------------------

  datatype ScopedToken = ScopedToken(name: string, token: string, permissions: seq<string>)

  datatype Principal = Principal(name: string, permissions: PermissionSet)

  const BEARER := "Bearer "

  function BearerToken(header: string): string {
    TrimSpace(if BEARER <= header then header[|BEARER|..] else header)
  }

  /** A header carries the token after "Bearer ", or alone. */
  lemma BearerTokenOf(t: string)
    requires Trimmed(t)
    ensures BearerToken("Bearer " + t) == t
    ensures !("Bearer " <= t) ==> BearerToken(t) == t
  {
    assert ("Bearer " + t)[7..] == t;
    TrimmedIsFixed(t);
  }

  /** First match over the master token followed by the scoped tokens; empty tokens match nothing. */
  function FirstMatch(tokens: seq<string>, got: string): (i: nat)
    ensures i <= |tokens|
    ensures forall j :: 0 <= j < i ==> tokens[j] != got || tokens[j] == ""
    ensures i < |tokens| ==> tokens[i] == got && got != ""
  {
    if tokens == [] then 0
    else if tokens[0] == got && got != "" then 0
    else 1 + FirstMatch(tokens[1..], got)
  }

  function Tokens(master: string, scoped: seq<ScopedToken>): seq<string> {
    [master] + seq(|scoped|, i requires 0 <= i < |scoped| => scoped[i].token)
  }

  lemma {:induction false} FirstMatchUnique(tokens: seq<string>, got: string, k: nat)
    requires k <= |tokens| && (k < |tokens| ==> tokens[k] == got && got != "")
    requires forall j :: 0 <= j < k ==> tokens[j] != got || got == ""
    ensures FirstMatch(tokens, got) == k
  {
  }

  /** principalFor compares every token and keeps the first match: the same principal an early exit
      would find. */
  method PrincipalFor(header: string, master: string, scoped: seq<ScopedToken>)
    returns (resolved: Principal, matched: bool)
    ensures var got := BearerToken(header);
            var i := FirstMatch(Tokens(master, scoped), got);
            && (matched <==> i <= |scoped|)
            && (matched && i == 0 ==> resolved == Principal("", PermissionSet(true, {})))
            && (matched && i > 0 ==> resolved.name == scoped[i - 1].name)
            && (matched && i > 0 ==> forall name :: resolved.permissions.Has(name) <==>
                Grants(scoped[i - 1].permissions, name))
  {
    var got := BearerToken(header);
    ghost var tokens := Tokens(master, scoped);
    matched, resolved := false, Principal("", PermissionSet(false, {}));
    if got == "" {
      FirstMatchUnique(tokens, got, |tokens|);
      return;
    }
    if got == master && master != "" {
      matched, resolved := true, Principal("", PermissionSet(true, {}));
    }
    ghost var at: nat := if matched then 0 else |tokens|;
    for i := 0 to |scoped|
      invariant at <= |tokens| && (matched <==> at < |tokens|)
      invariant matched ==> at <= i && tokens[at] == got
      invariant forall j :: 0 <= j < at && j <= i ==> tokens[j] != got
      invariant matched && at == 0 ==> resolved == Principal("", PermissionSet(true, {}))
      invariant matched && at > 0 ==> resolved.name == scoped[at - 1].name
      invariant matched && at > 0 ==> forall name :: resolved.permissions.Has(name) <==>
                Grants(scoped[at - 1].permissions, name)
    {
      assert tokens[i + 1] == scoped[i].token;
      if got == scoped[i].token && scoped[i].token != "" && !matched {
        var permissions := NewPermissionSet(scoped[i].permissions);
        forall name
          ensures permissions.Has(name) <==> Grants(scoped[i].permissions, name)
        {
          GrantsExactly(scoped[i].permissions, name);
        }
        matched, resolved := true, Principal(scoped[i].name, permissions);
        at := i + 1;
      }
    }
    FirstMatchUnique(tokens, got, at);
  }

  // ---- The route guard --------------------------------------------------------------------

  datatype Answer = Unauthorized | Forbidden(permission: string) | Next(caller: Principal)

  ghost predicate FirstMissing(permissions: seq<string>, granted: seq<string>, p: string) {
    exists k :: 0 <= k < |permissions| && permissions[k] == p && !Grants(granted, p) &&
        GrantsAll(granted, permissions[..k])
  }

  ghost predicate GrantsAll(granted: seq<string>, permissions: seq<string>) {
    forall p :: p in permissions ==> Grants(granted, p)
  }

  /** authorizedAll: the route runs exactly if a token matched and grants every permission; a refusal
      names the first one missing. */
  method AuthorizedAll(permissions: seq<string>, header: string, master: string, scoped: seq<ScopedToken>)
    returns (a: Answer)
    ensures var i := FirstMatch(Tokens(master, scoped), BearerToken(header));
            && (a.Unauthorized? <==> i > |scoped|)
            && (a.Next? <==> i == 0 || (i <= |scoped| && GrantsAll(scoped[i - 1].permissions, permissions)))
            && (a.Forbidden? ==> 0 < i <= |scoped|)
            && (a.Forbidden? ==> FirstMissing(permissions, scoped[i - 1].permissions, a.permission))
  {
    var caller, ok := PrincipalFor(header, master, scoped);
    if !ok {
      return Unauthorized;
    }
    for k := 0 to |permissions|
      invariant forall j :: 0 <= j < k ==> caller.permissions.Has(permissions[j])
    {
      if !caller.permissions.Has(permissions[k]) {
        assert permissions[k] in permissions;
        return Forbidden(permissions[k]);
      }
    }
    a := Next(caller);
  }
}
