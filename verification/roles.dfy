/** The case-insensitive group-name checks that decide how much a Jira user
    may see: administrators (web application and chat bot) and software
    users (chat bot only). */
module Roles {

  const AdminGroups: seq<string> := ["jira-administrators", "jira-software-administrators"]
  const PowerUserGroups: seq<string> := ["jira-software-users"]

  /** `str.lower()` on one character, for the ASCII letters. */
  function LowerChar(c: char): char
  {
    if 'A' <= c <= 'Z' then (c as int + 32) as char else c
  }

  function Lower(s: string): string
  {
    seq(|s|, i requires 0 <= i < |s| => LowerChar(s[i]))
  }

  /** `any(group.lower() in names for group in groups)`, scanning the groups
      left to right and stopping at the first hit. */
  function AnyLowerIn(groups: seq<string>, names: seq<string>): (r: bool)
    ensures r <==> exists i | 0 <= i < |groups| :: Lower(groups[i]) in names
  {
    if |groups| == 0 then false
    else if Lower(groups[0]) in names then true
    else
      var rest := AnyLowerIn(groups[1..], names);
      assert rest <==> exists i | 1 <= i < |groups| :: Lower(groups[i]) in names by {
        if rest {
          var i :| 0 <= i < |groups[1..]| && Lower(groups[1..][i]) in names;
          assert groups[1..][i] == groups[i + 1];
        }
        if exists i | 1 <= i < |groups| :: Lower(groups[i]) in names {
          var i :| 1 <= i < |groups| && Lower(groups[i]) in names;
          assert groups[1..][i - 1] == groups[i];
        }
      }
      rest
  }

  /** Two names equal up to the case of their letters. */
  predicate SameIgnoringCase(a: string, b: string)
  {
    |a| == |b| && forall i | 0 <= i < |a| :: LowerChar(a[i]) == LowerChar(b[i])
  }

  /** The administrator check of the web application's `get_stats` and of the
      chat bot's `_is_admin`. */
  function IsAdminGroups(groups: seq<string>): bool
  {
    AnyLowerIn(groups, AdminGroups)
  }

  /** The software-user check of the chat bot's `_is_power_user`. */
  function IsPowerUserGroups(groups: seq<string>): bool
  {
    AnyLowerIn(groups, PowerUserGroups)
  }

  /** A group lowers to an already lower-case name exactly when it spells
      that name in some mix of letter case. */
  lemma LowerMatches(g: string, n: string)
    requires Lower(n) == n
    ensures Lower(g) == n <==> SameIgnoringCase(g, n)
  {
    if SameIgnoringCase(g, n) {
      forall i | 0 <= i < |g| ensures Lower(g)[i] == n[i] {
        assert Lower(n)[i] == LowerChar(n[i]);
      }
    }
    if Lower(g) == n {
      forall i | 0 <= i < |g| ensures LowerChar(g[i]) == LowerChar(n[i]) {
        assert Lower(n)[i] == LowerChar(n[i]);
      }
    }
  }

  /** Any lower-case name list: the check holds exactly when some group
      spells one of the names up to letter case. */
  lemma AnyLowerInIgnoresCase(groups: seq<string>, names: seq<string>)
    requires forall j | 0 <= j < |names| :: Lower(names[j]) == names[j]
    ensures AnyLowerIn(groups, names) <==>
      exists i, j | 0 <= i < |groups| && 0 <= j < |names| :: SameIgnoringCase(groups[i], names[j])
  {
    if AnyLowerIn(groups, names) {
      var i :| 0 <= i < |groups| && Lower(groups[i]) in names;
      var j :| 0 <= j < |names| && names[j] == Lower(groups[i]);
      LowerMatches(groups[i], names[j]);
    }
    if exists i, j | 0 <= i < |groups| && 0 <= j < |names| :: SameIgnoringCase(groups[i], names[j]) {
      var i, j :| 0 <= i < |groups| && 0 <= j < |names| && SameIgnoringCase(groups[i], names[j]);
      LowerMatches(groups[i], names[j]);
    }
  }

  lemma AdminGroupsLower()
    ensures forall j | 0 <= j < |AdminGroups| :: Lower(AdminGroups[j]) == AdminGroups[j]
    ensures forall j | 0 <= j < |PowerUserGroups| :: Lower(PowerUserGroups[j]) == PowerUserGroups[j]
  {
    NoCapitalsLower("jira-administrators");
    NoCapitalsLower("jira-software-administrators");
    NoCapitalsLower("jira-software-users");
  }

  /** A name without capital letters is its own lower-case form. */
  lemma NoCapitalsLower(s: string)
    requires forall i | 0 <= i < |s| :: !('A' <= s[i] <= 'Z')
    ensures Lower(s) == s
  {
  }

  /** The administrator flag is set exactly when some group is
      `jira-administrators` or `jira-software-administrators` in any mix of
      letter case. */
  lemma IsAdminGroupsSpec(groups: seq<string>)
    ensures IsAdminGroups(groups) <==>
      exists i | 0 <= i < |groups| ::
        SameIgnoringCase(groups[i], "jira-administrators") || SameIgnoringCase(groups[i], "jira-software-administrators")
  {
    AdminGroupsLower();
    AnyLowerInIgnoresCase(groups, AdminGroups);
    if exists i, j | 0 <= i < |groups| && 0 <= j < |AdminGroups| :: SameIgnoringCase(groups[i], AdminGroups[j]) {
      var i, j :| 0 <= i < |groups| && 0 <= j < |AdminGroups| && SameIgnoringCase(groups[i], AdminGroups[j]);
      assert SameIgnoringCase(groups[i], "jira-administrators") || SameIgnoringCase(groups[i], "jira-software-administrators");
    }
    if exists i | 0 <= i < |groups| ::
        SameIgnoringCase(groups[i], "jira-administrators") || SameIgnoringCase(groups[i], "jira-software-administrators") {
      var i :| 0 <= i < |groups| &&
        (SameIgnoringCase(groups[i], "jira-administrators") || SameIgnoringCase(groups[i], "jira-software-administrators"));
      if SameIgnoringCase(groups[i], "jira-administrators") {
        assert SameIgnoringCase(groups[i], AdminGroups[0]);
      } else {
        assert SameIgnoringCase(groups[i], AdminGroups[1]);
      }
    }
  }

  /** The software-user flag is set exactly when some group is
      `jira-software-users` in any mix of letter case. */
  lemma IsPowerUserGroupsSpec(groups: seq<string>)
    ensures IsPowerUserGroups(groups) <==>
      exists i | 0 <= i < |groups| :: SameIgnoringCase(groups[i], "jira-software-users")
  {
    AdminGroupsLower();
    AnyLowerInIgnoresCase(groups, PowerUserGroups);
    if exists i, j | 0 <= i < |groups| && 0 <= j < |PowerUserGroups| :: SameIgnoringCase(groups[i], PowerUserGroups[j]) {
      var i, j :| 0 <= i < |groups| && 0 <= j < |PowerUserGroups| && SameIgnoringCase(groups[i], PowerUserGroups[j]);
      assert j == 0;
    }
    if exists i | 0 <= i < |groups| :: SameIgnoringCase(groups[i], "jira-software-users") {
      var i :| 0 <= i < |groups| && SameIgnoringCase(groups[i], "jira-software-users");
      assert SameIgnoringCase(groups[i], PowerUserGroups[0]);
    }
  }
}
