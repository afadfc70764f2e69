/**
 * The dashboard's role logic: normalizeRole and the isAdmin flag
 * (useSession.ts) and extractRoleFromClaims (jwt.ts). These are JavaScript,
 * so white space is ECMAScript's (String.prototype.trim), not .NET's.
 */
module DashboardRoles {
  import opened Text
  import opened Json

  /**
   * ECMAScript WhiteSpace and LineTerminator: the .NET list without U+0085
   * and with U+FEFF.
   */
  predicate IsJsWhiteSpace(c: char)
  {
    ('\U{0009}' <= c <= '\U{000D}') || c == ' ' || c == '\U{00A0}' || c == '\U{1680}' ||
    ('\U{2000}' <= c <= '\U{200A}') || c == '\U{2028}' || c == '\U{2029}' || c == '\U{202F}' ||
    c == '\U{205F}' || c == '\U{3000}' || c == '\U{FEFF}'
  }

  predicate AllJsWhiteSpace(s: string)
  {
    forall i | 0 <= i < |s| :: IsJsWhiteSpace(s[i])
  }

  /** The number of white-space characters at the front. */
  function LeadingSpace(s: string): (n: nat)
    ensures n <= |s|
    ensures AllJsWhiteSpace(s[..n])
    ensures n == |s| || !IsJsWhiteSpace(s[n])
  {
    if |s| == 0 || !IsJsWhiteSpace(s[0]) then 0
    else
      var n := 1 + LeadingSpace(s[1..]);
      assert forall i | 1 <= i < n :: s[..n][i] == s[1..][..n - 1][i - 1];
      n
  }

  /** Where the trailing white space begins. */
  function TrailingStart(s: string): (n: nat)
    ensures n <= |s|
    ensures AllJsWhiteSpace(s[n..])
    ensures n == 0 || !IsJsWhiteSpace(s[n - 1])
    decreases |s|
  {
    if |s| == 0 || !IsJsWhiteSpace(s[|s| - 1]) then |s|
    else
      var n := TrailingStart(s[..|s| - 1]);
      assert forall i | n <= i < |s| - 1 :: s[i] == s[..|s| - 1][i];
      n
  }

  /** String.prototype.trim: white space removed from both ends, nothing else. */
  function Trim(s: string): (r: string)
    ensures |r| <= |s|
    ensures r == "" <==> AllJsWhiteSpace(s)
    ensures r != "" ==> !IsJsWhiteSpace(r[0]) && !IsJsWhiteSpace(r[|r| - 1])
    ensures r != "" ==> exists a | 0 <= a <= |s| - |r| :: TrimmedAt(s, r, a)
  {
    var a := LeadingSpace(s);
    if a == |s| then
      assert s[..a] == s;
      ""
    else
      var b := TrailingStart(s);
      assert forall i | b <= i < |s| :: IsJsWhiteSpace(s[i]) by {
        forall i | b <= i < |s| ensures IsJsWhiteSpace(s[i]) {
          assert s[i] == s[b..][i - b];
        }
      }
      assert a < b;
      assert TrimmedAt(s, s[a..b], a) by {
        assert s[..a] == s[..a];
      }
      s[a..b]
  }

  /** s is r with white space only before and after it, r starting at a. */
  predicate TrimmedAt(s: string, r: string, a: int)
  {
    && 0 <= a <= |s| - |r|
    && s[a..a + |r|] == r
    && AllJsWhiteSpace(s[..a])
    && AllJsWhiteSpace(s[a + |r|..])
  }

  /** Trimming twice is trimming once. */
  lemma TrimIdempotent(s: string)
    ensures Trim(Trim(s)) == Trim(s)
  {
    var r := Trim(s);
    if r != "" {
      assert LeadingSpace(r) == 0;
      assert TrailingStart(r) == |r|;
      assert r[0..|r|] == r;
    }
  }

  const AdminRole: string := "Admin"
  const AnalystRole: string := "Analyst"

  /**
   * normalizeRole: null, empty and white-space-only roles become null; a
   * trimmed "admin" or "analyst" in any case becomes "Admin" or "Analyst";
   * any other role comes back trimmed with its case unchanged.
   */
  function NormalizeRole(role: Option<string>): (r: Option<string>)
    ensures r.None? <==> role.None? || AllJsWhiteSpace(role.value)
    ensures r.Some? && EqualsIgnoreCase(Trim(role.value), "admin") ==> r.value == AdminRole
    ensures r.Some? && EqualsIgnoreCase(Trim(role.value), "analyst") ==> r.value == AnalystRole
    ensures r.Some? && !EqualsIgnoreCase(Trim(role.value), "admin") && !EqualsIgnoreCase(Trim(role.value), "analyst") ==>
      r.value == Trim(role.value)
  {
    if role.None? || role.value == "" then None
    else
      var trimmed := Trim(role.value);
      if trimmed == "" then None
      else
        var lower := Lower(trimmed);
        LowerNames();
        if lower == "admin" then Some(AdminRole)
        else if lower == "analyst" then Some(AnalystRole)
        else Some(trimmed)
  }

  lemma LowerNames()
    ensures Lower("admin") == "admin" && Lower("analyst") == "analyst"
  {
  }

  lemma CanonicalRoles()
    ensures Lower(AdminRole) == "admin" && Lower(AnalystRole) == "analyst"
    ensures Trim(AdminRole) == AdminRole && Trim(AnalystRole) == AnalystRole
  {
    assert Lower(AdminRole)[0] == LowerChar('A') == 'a';
    assert Lower(AnalystRole)[0] == LowerChar('A') == 'a';
    assert LeadingSpace(AdminRole) == 0 && TrailingStart(AdminRole) == |AdminRole|;
    assert AdminRole[0..|AdminRole|] == AdminRole;
    assert LeadingSpace(AnalystRole) == 0 && TrailingStart(AnalystRole) == |AnalystRole|;
    assert AnalystRole[0..|AnalystRole|] == AnalystRole;
  }

  /** A normalised role normalises to itself, as the hook relies on when it re-reads a stored role. */
  lemma NormalizeRoleIdempotent(role: Option<string>)
    ensures NormalizeRole(NormalizeRole(role)) == NormalizeRole(role)
  {
    var r := NormalizeRole(role);
    if r.Some? {
      CanonicalRoles();
      var t := Trim(role.value);
      TrimIdempotent(role.value);
      assert !AllJsWhiteSpace(r.value) by {
        assert !IsJsWhiteSpace(r.value[0]);
      }
    }
  }

  /** isAdmin: the normalised role is exactly "Admin". */
  predicate IsAdmin(role: Option<string>)
  {
    NormalizeRole(role) == Some(AdminRole)
  }

  /** The flag is set only for a role that trims to "admin" in some case. */
  lemma IsAdminOnlyForAdmin(role: Option<string>)
    requires IsAdmin(role)
    ensures role.Some? && EqualsIgnoreCase(Trim(role.value), "admin")
  {
    CanonicalRoles();
    LowerNames();
    var t := Trim(role.value);
    assert AdminRole != AnalystRole;
    assert !EqualsIgnoreCase(t, "analyst") || EqualsIgnoreCase(t, "admin");
    assert EqualsIgnoreCase(t, "admin") || t == AdminRole;
  }

  /** Any role that trims to "admin" in some case sets the flag. */
  lemma AdminSpellingsAreAdmin(role: Option<string>)
    requires role.Some? && EqualsIgnoreCase(Trim(role.value), "admin")
    ensures IsAdmin(role)
  {
    LowerNames();
    assert Lower("") == "";
    assert Trim(role.value) != "";
  }

  /** The flag is set exactly for roles that trim to "admin" in some case. */
  lemma IsAdminIff(role: Option<string>)
    ensures IsAdmin(role) <==> role.Some? && EqualsIgnoreCase(Trim(role.value), "admin")
  {
    if IsAdmin(role) {
      IsAdminOnlyForAdmin(role);
    }
    if role.Some? && EqualsIgnoreCase(Trim(role.value), "admin") {
      AdminSpellingsAreAdmin(role);
    }
  }

  // ---------------------------------------------------------------------
  // extractRoleFromClaims

  const SchemaRoleClaim: string := "http://schemas.microsoft.com/ws/2008/06/identity/claims/role"

  /** A property read: undefined and null both count as absent for `??`. */
  function Claim(claims: map<string, Json>, name: string): Option<Json>
  {
    if name in claims && claims[name] != JNull then Some(claims[name]) else None
  }

  /** role ?? Role: "Role" is read only when "role" is undefined or null. */
  function DirectRole(c: map<string, Json>): Option<Json>
  {
    if Claim(c, "role").Some? then Claim(c, "role") else Claim(c, "Role")
  }

  /** A string that still has something after trimming. */
  predicate IsRoleText(v: Option<Json>)
  {
    v.Some? && v.value.JStr? && !AllJsWhiteSpace(v.value.s)
  }

  /** No candidate is a non-blank string. */
  predicate NoRoleSource(c: map<string, Json>)
  {
    !IsRoleText(DirectRole(c)) && !IsRoleText(Claim(c, SchemaRoleClaim)) && !IsRoleText(FirstOfArray(Claim(c, "roles")))
  }

  /** The first element of a non-empty array. */
  function FirstOfArray(v: Option<Json>): Option<Json>
  {
    if v.Some? && v.value.JArr? && |v.value.items| > 0 then Some(v.value.items[0]) else None
  }

  /**
   * role ?? Role, then the schema claim, then roles[0]; each is taken only
   * when it is a string that is not blank, and is returned untrimmed.
   */
  function ExtractRoleFromClaims(claims: Option<map<string, Json>>): (r: Option<string>)
    ensures r.Some? ==> !AllJsWhiteSpace(r.value)
    ensures r.None? <==> (claims.None? || NoRoleSource(claims.value))
  {
    if claims.None? then None
    else
      var c := claims.value;
      var direct := DirectRole(c);
      if IsRoleText(direct) then Some(direct.value.s)
      else
        var schemaRole := Claim(c, SchemaRoleClaim);
        if IsRoleText(schemaRole) then Some(schemaRole.value.s)
        else
          var first := FirstOfArray(Claim(c, "roles"));
          if IsRoleText(first) then Some(first.value.s)
          else None
  }

  /**
   * A present "role" claim hides "Role" completely, even when it is an empty
   * string or not a string at all.
   */
  lemma RoleShadowsCapitalRole(c: map<string, Json>, other: Json)
    requires Claim(c, "role").Some?
    ensures ExtractRoleFromClaims(Some(c["Role" := other])) == ExtractRoleFromClaims(Some(c))
  {
    var d := c["Role" := other];
    assert Claim(d, "role") == Claim(c, "role");
    assert Claim(d, SchemaRoleClaim) == Claim(c, SchemaRoleClaim);
    assert Claim(d, "roles") == Claim(c, "roles");
  }

  /** Only the first element of "roles" is looked at. */
  lemma OnlyFirstRoleCounts(items: seq<Json>, rest: seq<Json>)
    requires |items| > 0 && !(items[0].JStr? && !AllJsWhiteSpace(items[0].s))
    ensures ExtractRoleFromClaims(Some(map["roles" := JArr(items + rest)])) == None
  {
    var c := map["roles" := JArr(items + rest)];
    assert Claim(c, "role").None? && Claim(c, "Role").None? && Claim(c, SchemaRoleClaim).None?;
    assert (items + rest)[0] == items[0];
  }

  /**
   * Which source wins: a usable role/Role first, the schema claim second,
   * the first array element third.
   */
  lemma ExtractRolePriority(c: map<string, Json>)
    ensures var direct := DirectRole(c);
      && (IsRoleText(direct) ==> ExtractRoleFromClaims(Some(c)) == Some(direct.value.s))
      && (!IsRoleText(direct) && IsRoleText(Claim(c, SchemaRoleClaim)) ==>
            ExtractRoleFromClaims(Some(c)) == Some(Claim(c, SchemaRoleClaim).value.s))
      && (!IsRoleText(direct) && !IsRoleText(Claim(c, SchemaRoleClaim)) ==>
            ExtractRoleFromClaims(Some(c)) == (if IsRoleText(FirstOfArray(Claim(c, "roles")))
              then Some(FirstOfArray(Claim(c, "roles")).value.s) else None))
  {
  }

  /** Whatever the claims yield, normalising it gives a role exactly when one was found. */
  lemma ExtractedRolesNormalise(claims: Option<map<string, Json>>)
    ensures NormalizeRole(ExtractRoleFromClaims(claims)).Some? <==> ExtractRoleFromClaims(claims).Some?
  {
  }

  /** An empty "role" falls through to the schema claim, and never to "Role". */
  lemma EmptyRoleExample()
    ensures ExtractRoleFromClaims(Some(map["role" := JStr(""), "Role" := JStr(AdminRole)])) == None
  {
    var c := map["role" := JStr(""), "Role" := JStr(AdminRole)];
    assert Claim(c, "role") == Some(JStr(""));
    assert "role" != SchemaRoleClaim && "Role" != SchemaRoleClaim && "roles" != "Role" && "roles" != "role";
    assert Claim(c, SchemaRoleClaim).None?;
    assert Claim(c, "roles").None?;
  }
}
