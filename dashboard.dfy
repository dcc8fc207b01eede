/** app/dashboard/page.tsx: the profile fields picked from the query string of
    the sign-in redirect. The query string arrives as a name-to-value map. */
module Dashboard {
  import opened JsString

  /** `String(v).trim()` is empty. */
  predicate IsBlank(v: string) {
    Trim(v) == ""
  }

  /** `obj[k]` is present and not blank. */
  predicate QualifiesBy(blank: string -> bool, obj: map<string, string>, k: string) {
    k in obj && !blank(obj[k])
  }

  /** The scan of `pickFirst`, for any notion of blank that counts `""` as
      blank: the value of the first key in list order that qualifies, `""`
      when there is none. */
  function PickFirstBy(blank: string -> bool, obj: map<string, string>, keys: seq<string>): (r: string)
    requires blank("")
    ensures r == "" <==> forall i :: 0 <= i < |keys| ==> !QualifiesBy(blank, obj, keys[i])
    ensures r != "" ==> exists i :: 0 <= i < |keys| && QualifiesBy(blank, obj, keys[i]) && r == obj[keys[i]]
                                    && forall j :: 0 <= j < i ==> !QualifiesBy(blank, obj, keys[j])
  {
    if keys == [] then ""
    else if QualifiesBy(blank, obj, keys[0]) then obj[keys[0]]
    else
      var r := PickFirstBy(blank, obj, keys[1..]);
      assert forall i :: 1 <= i < |keys| ==> keys[i] == keys[1..][i - 1];
      r
  }

  predicate Qualifies(obj: map<string, string>, k: string) {
    QualifiesBy(IsBlank, obj, k)
  }

  /** `pickFirst(obj, keys)`: the value, untrimmed, of the first key whose
      value is not blank. */
  function PickFirst(obj: map<string, string>, keys: seq<string>): string {
    assert IsBlank("");
    PickFirstBy(IsBlank, obj, keys)
  }

  /** One step of the scan: the head key wins if it qualifies. */
  lemma PickFirstStep(blank: string -> bool, obj: map<string, string>, k: string, rest: seq<string>)
    requires blank("")
    ensures PickFirstBy(blank, obj, [k] + rest)
         == if QualifiesBy(blank, obj, k) then obj[k] else PickFirstBy(blank, obj, rest)
  {
    assert ([k] + rest)[1..] == rest;
  }

  datatype User = User(name: string, email: string, picture: string)

  const NameKeys: seq<string> := ["name", "full_name", "display_name", "given_name"]
  const EmailKeys: seq<string> := ["email", "user_email"]
  const PictureKeys: seq<string> := ["picture", "avatar", "photo"]

  /** The user written to local storage: `name` falls back to `"friend"`,
      `email` and `picture` to `""`. */
  function UserFromQuery(obj: map<string, string>): (u: User)
    ensures u.name != ""
    ensures PickFirst(obj, NameKeys) == "" ==> u.name == "friend"
    ensures PickFirst(obj, NameKeys) != "" ==> u.name == PickFirst(obj, NameKeys)
  {
    var n := PickFirst(obj, NameKeys);
    User(if n != "" then n else "friend", PickFirst(obj, EmailKeys), PickFirst(obj, PictureKeys))
  }

  /** The fallback chain of `name`, key by key, ending in `"friend"`. */
  lemma NameFallback(obj: map<string, string>)
    ensures var n := UserFromQuery(obj).name;
      && (Qualifies(obj, "name") ==> n == obj["name"])
      && (!Qualifies(obj, "name") && Qualifies(obj, "full_name") ==> n == obj["full_name"])
      && (!Qualifies(obj, "name") && !Qualifies(obj, "full_name") && Qualifies(obj, "display_name") ==> n == obj["display_name"])
      && (!Qualifies(obj, "name") && !Qualifies(obj, "full_name") && !Qualifies(obj, "display_name")
          ==> n == (if Qualifies(obj, "given_name") then obj["given_name"] else "friend"))
  {
    assert NameKeys == ["name"] + ["full_name", "display_name", "given_name"];
    assert ["full_name", "display_name", "given_name"] == ["full_name"] + ["display_name", "given_name"];
    assert ["display_name", "given_name"] == ["display_name"] + ["given_name"];
    assert ["given_name"] == ["given_name"] + [];
    PickFirstStep(IsBlank, obj, "name", ["full_name", "display_name", "given_name"]);
    PickFirstStep(IsBlank, obj, "full_name", ["display_name", "given_name"]);
    PickFirstStep(IsBlank, obj, "display_name", ["given_name"]);
    PickFirstStep(IsBlank, obj, "given_name", []);
  }

  /** The fallback chain of `email`, ending in `""`. */
  lemma EmailFallback(obj: map<string, string>)
    ensures var e := UserFromQuery(obj).email;
      && (Qualifies(obj, "email") ==> e == obj["email"])
      && (!Qualifies(obj, "email") ==> e == (if Qualifies(obj, "user_email") then obj["user_email"] else ""))
  {
    assert EmailKeys == ["email"] + ["user_email"];
    assert ["user_email"] == ["user_email"] + [];
    PickFirstStep(IsBlank, obj, "email", ["user_email"]);
    PickFirstStep(IsBlank, obj, "user_email", []);
  }

  /** The fallback chain of `picture`, ending in `""`. */
  lemma PictureFallback(obj: map<string, string>)
    ensures var p := UserFromQuery(obj).picture;
      && (Qualifies(obj, "picture") ==> p == obj["picture"])
      && (!Qualifies(obj, "picture") && Qualifies(obj, "avatar") ==> p == obj["avatar"])
      && (!Qualifies(obj, "picture") && !Qualifies(obj, "avatar")
          ==> p == (if Qualifies(obj, "photo") then obj["photo"] else ""))
  {
    assert PictureKeys == ["picture"] + ["avatar", "photo"];
    assert ["avatar", "photo"] == ["avatar"] + ["photo"];
    assert ["photo"] == ["photo"] + [];
    PickFirstStep(IsBlank, obj, "picture", ["avatar", "photo"]);
    PickFirstStep(IsBlank, obj, "avatar", ["photo"]);
    PickFirstStep(IsBlank, obj, "photo", []);
  }

  /** A key not in the map is skipped, whatever its place in the list. */
  lemma {:induction false} MissingKeySkipped(blank: string -> bool, obj: map<string, string>,
                                             before: seq<string>, k: string, after: seq<string>)
    requires blank("")
    requires k !in obj
    ensures PickFirstBy(blank, obj, before + [k] + after) == PickFirstBy(blank, obj, before + after)
  {
    var l1 := before + [k] + after;
    var l2 := before + after;
    if before == [] {
      assert l1[1..] == after && l2 == after;
    } else {
      assert l1[0] == l2[0] == before[0];
      assert l1[1..] == before[1..] + [k] + after;
      assert l2[1..] == before[1..] + after;
      MissingKeySkipped(blank, obj, before[1..], k, after);
    }
  }
}
