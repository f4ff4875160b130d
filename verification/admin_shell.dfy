/**
 * The admin area's frame (src/app/admin/AdminShell.tsx): what it renders
 * and whether it redirects, from whether it has mounted, the current path
 * and the stored admin token; the sign-out action; and which sidebar link
 * is highlighted. The admin token helpers it imports are not part of
 * src/lib/auth.ts, so the token is an input here and removing it is an
 * effect.
 */
module AdminShell {
  import opened Common

  const LoginPath: string := "/admin/login"
  const DashboardPath: string := "/admin"
  const PostsPath: string := "/admin/posts"

  /** The sidebar links, by `href`. */
  const SidebarLinks: seq<string> := [DashboardPath, PostsPath]

  datatype View =
    | Loading                           // before mount
    | PageOnly                          // the login page, without the frame
    | Blank                             // nothing, while the redirect happens
    | Framed(activeLinks: seq<bool>)    // sidebar and page; one flag per sidebar link

  datatype Effect = RemoveAdminToken | Replace(path: string)

  /** `token` is truthy. */
  predicate HasToken(token: Option<string>) {
    token.Some? && token.value != ""
  }

  /** The highlighting test of a sidebar link, as written with its redundant second case. */
  predicate IsActive(pathname: string, href: string) {
    pathname == href || (href == DashboardPath && pathname == DashboardPath)
  }

  /** A link is highlighted exactly when the path is its `href`: the second case adds nothing. */
  lemma ActiveIffSamePath(pathname: string, href: string)
    ensures IsActive(pathname, href) <==> pathname == href
  {
  }

  /** At most one sidebar link is highlighted. */
  lemma AtMostOneActive(pathname: string, i: int, j: int)
    requires 0 <= i < |SidebarLinks| && 0 <= j < |SidebarLinks|
    requires IsActive(pathname, SidebarLinks[i]) && IsActive(pathname, SidebarLinks[j])
    ensures i == j
  {
    assert SidebarLinks[0] != SidebarLinks[1] by {
      assert |SidebarLinks[0]| != |SidebarLinks[1]|;
    }
  }

  /** The frame's output; the token is read only once mounted, so before that it plays no part. */
  function Render(mounted: bool, pathname: string, token: Option<string>): (v: View)
    ensures !mounted <==> v == Loading
    ensures mounted && pathname == LoginPath ==> v == PageOnly
    ensures mounted && pathname != LoginPath && !HasToken(token) ==> v == Blank
    ensures mounted && pathname != LoginPath && HasToken(token) ==>
              v.Framed? && |v.activeLinks| == |SidebarLinks|
              && forall i :: 0 <= i < |SidebarLinks| ==> (v.activeLinks[i] <==> pathname == SidebarLinks[i])
  {
    if !mounted then Loading
    else if pathname == LoginPath then PageOnly
    else if !HasToken(token) then Blank
    else
      var flags := seq(|SidebarLinks|, i requires 0 <= i < |SidebarLinks| => IsActive(pathname, SidebarLinks[i]));
      Framed(flags)
  }

  /** The redirect effect: after mount, off the login page, without a token. */
  function RedirectOf(mounted: bool, pathname: string, token: Option<string>): (r: seq<Effect>)
    ensures r == [] || r == [Replace(LoginPath)]
    ensures r != [] <==> mounted && pathname != LoginPath && !HasToken(token)
  {
    if mounted && pathname != LoginPath && !HasToken(token) then [Replace(LoginPath)] else []
  }

  /** Before mount the output is the same whatever the token. */
  lemma UnmountedIgnoresToken(pathname: string, t1: Option<string>, t2: Option<string>)
    ensures Render(false, pathname, t1) == Render(false, pathname, t2) == Loading
    ensures RedirectOf(false, pathname, t1) == RedirectOf(false, pathname, t2) == []
  {
  }

  /** On the login page the page itself renders, with or without a token, and no redirect happens. */
  lemma LoginPageAlwaysRenders(token: Option<string>)
    ensures Render(true, LoginPath, token) == PageOnly && RedirectOf(true, LoginPath, token) == []
  {
  }

  /** Once mounted, the frame renders nothing exactly when it redirects, and shows the page only with a token or on the login page. */
  lemma BlankIffRedirect(pathname: string, token: Option<string>)
    ensures Render(true, pathname, token) == Blank <==> RedirectOf(true, pathname, token) != []
    ensures Render(true, pathname, token) != Blank ==> pathname == LoginPath || HasToken(token)
  {
  }

  /** `handleLogout`: the token goes first, then the login page replaces the current one. */
  function Logout(): (r: seq<Effect>)
    ensures |r| == 2 && r[0] == RemoveAdminToken && r[1] == Replace(LoginPath)
  {
    [RemoveAdminToken, Replace(LoginPath)]
  }

  /** The token store after a sequence of effects. */
  function ApplyEffects(token: Option<string>, effects: seq<Effect>): Option<string>
    decreases |effects|
  {
    if |effects| == 0 then token
    else ApplyEffects(if effects[0] == RemoveAdminToken then None else token, effects[1..])
  }

  /** After signing out, the admin pages are closed: anywhere but the login page the frame is blank and redirects. */
  lemma LogoutClosesAdminPages(token: Option<string>, pathname: string)
    requires pathname != LoginPath
    ensures var t := ApplyEffects(token, Logout());
            Render(true, pathname, t) == Blank && RedirectOf(true, pathname, t) == [Replace(LoginPath)]
  {
    var effects := Logout();
    assert effects[1..][1..] == [];
  }
}
