/** Role slugs (stored in the `role` column) and the labels the web front end
    sends and shows, as AccountController and UserController translate them. */
module Roles {
  import opened Text

  /** A stored slug: lower-case letters, digits and underscores. */
  predicate IsSlug(s: string) {
    forall i | 0 <= i < |s| :: 'a' <= s[i] <= 'z' || IsDigit(s[i]) || s[i] == '_'
  }

  /** The fallback of every name-to-slug map: `strtolower(str_replace(' ', '_', $name))`. */
  function SlugFallback(name: string): (r: string)
    ensures |r| == |name|
    ensures forall i | 0 <= i < |r| :: r[i] != ' ' && !('A' <= r[i] <= 'Z')
    ensures forall i | 0 <= i < |r| :: (r[i] == '_' <==> name[i] == ' ' || name[i] == '_')
  {
    Lower(ReplaceChar(name, ' ', '_'))
  }

  /** The slug-to-name map of the account listing (AccountController.php:47-59). */
  function RoleLabel(slug: string): (r: string)
    ensures |r| == |slug|
    ensures forall i | 0 <= i < |r| :: r[i] != '_'
    ensures slug == "super_admin" ==> r == "Super Admin"
    ensures slug == "dean" ==> r == "Dean"
    ensures slug == "college_secretary" ==> r == "College Secretary"
  {
    if slug == "super_admin" then "Super Admin"
    else if slug == "dean" then "Dean"
    else if slug == "college_secretary" then "College Secretary"
    else UpperFirst(ReplaceChar(slug, '_', ' '))
  }

  /** The name-to-slug map of account creation (AccountController.php:96-107). */
  function AccountStoreSlug(name: string): (r: string)
    ensures name == "Super Admin" ==> r == "super_admin"
    ensures name == "Dean" ==> r == "dean"
    ensures name == "College Secretary" ==> r == "college_secretary"
    ensures name !in {"Super Admin", "Dean", "College Secretary"} ==> r == SlugFallback(name)
  {
    if name == "Super Admin" then "super_admin"
    else if name == "Dean" then "dean"
    else if name == "College Secretary" then "college_secretary"
    else SlugFallback(name)
  }

  /** The name-to-slug map of an administrator's account edit (AccountController.php:208-221). */
  function AccountUpdateSlug(name: string): (r: string)
    ensures name == "Super Admin" ==> r == "super_admin"
    ensures name == "Dean" ==> r == "dean"
    ensures name == "Secretary" ==> r == "secretary"
    ensures name == "Program Head" ==> r == "program_head"
    ensures name == "Professor" ==> r == "prof"
    ensures name !in {"Super Admin", "Dean", "Secretary", "Program Head", "Professor"} ==> r == SlugFallback(name)
  {
    if name == "Super Admin" then "super_admin"
    else if name == "Dean" then "dean"
    else if name == "Secretary" then "secretary"
    else if name == "Program Head" then "program_head"
    else if name == "Professor" then "prof"
    else SlugFallback(name)
  }

  /** The name-to-slug map of user creation (UserController.php:48-61). */
  function UserStoreSlug(name: string): (r: string)
    ensures name == "Program Head" ==> r == "program_head"
    ensures name == "Dean" ==> r == "dean"
    ensures name == "Professor" ==> r == "prof"
    ensures name == "Guard" ==> r == "guard"
    ensures name == "Super Admin" ==> r == "super_admin"
    ensures name !in {"Program Head", "Dean", "Professor", "Guard", "Super Admin"} ==> r == SlugFallback(name)
  {
    if name == "Program Head" then "program_head"
    else if name == "Dean" then "dean"
    else if name == "Professor" then "prof"
    else if name == "Guard" then "guard"
    else if name == "Super Admin" then "super_admin"
    else SlugFallback(name)
  }

  lemma FallbackIsSlug(name: string)
    requires forall i | 0 <= i < |name| :: IsLetter(name[i]) || IsDigit(name[i]) || name[i] == ' '
    ensures IsSlug(SlugFallback(name))
  {
    var f := SlugFallback(name);
    forall i | 0 <= i < |f| ensures 'a' <= f[i] <= 'z' || IsDigit(f[i]) || f[i] == '_' {
      assert f[i] == LowerChar(if name[i] == ' ' then '_' else name[i]);
    }
  }

  /** Creating an account under one of the three listed labels and listing it
      shows the same name again. */
  lemma LabelRoundTrip(name: string)
    requires name in {"Super Admin", "Dean", "College Secretary"}
    ensures RoleLabel(AccountStoreSlug(name)) == name
  {
  }

  /** The fallback slug of a fallback label is the slug it came from. */
  lemma FallbackInvertsLabel(slug: string)
    requires IsSlug(slug)
    ensures SlugFallback(UpperFirst(ReplaceChar(slug, '_', ' '))) == slug
  {
    var spaced := ReplaceChar(slug, '_', ' ');
    var shown := UpperFirst(spaced);
    var back := SlugFallback(shown);
    forall i | 0 <= i < |slug| ensures back[i] == slug[i] {
      assert back[i] == LowerChar(if shown[i] == ' ' then '_' else shown[i]);
      if i > 0 {
        assert shown[i] == spaced[i];
      }
    }
  }

  /** A fallback label has no capital after its first character. */
  lemma FallbackLabelShape(slug: string)
    requires IsSlug(slug)
    ensures forall i | 1 <= i < |slug| :: !('A' <= UpperFirst(ReplaceChar(slug, '_', ' '))[i] <= 'Z')
  {
    var spaced := ReplaceChar(slug, '_', ' ');
    assert forall i | 1 <= i < |slug| :: UpperFirst(spaced)[i] == spaced[i];
  }

  /** Labelling a stored slug and mapping the label back through account
      creation gives the slug again. */
  lemma SlugRoundTrip(slug: string)
    requires IsSlug(slug)
    ensures AccountStoreSlug(RoleLabel(slug)) == slug
  {
    if slug !in {"super_admin", "dean", "college_secretary"} {
      var shown := UpperFirst(ReplaceChar(slug, '_', ' '));
      assert RoleLabel(slug) == shown;
      FallbackLabelShape(slug);
      FallbackInvertsLabel(slug);
      assert shown != "Super Admin" && shown != "College Secretary" by {
        assert |shown| == |slug|;
        assert "Super Admin"[6] == 'A' && "College Secretary"[8] == 'S';
      }
      assert shown != "Dean" by {
        assert SlugFallback("Dean") == "dean";
      }
    }
  }

  /** Every name a table lists is mapped as the fallback would map it. */
  lemma ListedNamesFollowFallback()
    ensures SlugFallback("Super Admin") == "super_admin"
    ensures SlugFallback("Dean") == "dean"
    ensures SlugFallback("College Secretary") == "college_secretary"
    ensures SlugFallback("Secretary") == "secretary"
    ensures SlugFallback("Program Head") == "program_head"
    ensures SlugFallback("Guard") == "guard"
    ensures SlugFallback("Professor") == "professor"
  {
    FallbackOfTwoWords();
    FallbackOfOneWord();
  }

  lemma FallbackOfTwoWords()
    ensures SlugFallback("Super Admin") == "super_admin"
    ensures SlugFallback("College Secretary") == "college_secretary"
    ensures SlugFallback("Program Head") == "program_head"
  {
    assert ReplaceChar("Super Admin", ' ', '_') == "Super_Admin";
    assert Lower("Super_Admin") == "super_admin";
    assert ReplaceChar("College Secretary", ' ', '_') == "College_Secretary";
    assert Lower("College_Secretary") == "college_secretary";
    assert ReplaceChar("Program Head", ' ', '_') == "Program_Head";
    assert Lower("Program_Head") == "program_head";
  }

  lemma FallbackOfOneWord()
    ensures SlugFallback("Dean") == "dean"
    ensures SlugFallback("Secretary") == "secretary"
    ensures SlugFallback("Guard") == "guard"
    ensures SlugFallback("Professor") == "professor"
  {
    assert ReplaceChar("Dean", ' ', '_') == "Dean";
    assert Lower("Dean") == "dean";
    assert ReplaceChar("Secretary", ' ', '_') == "Secretary";
    assert Lower("Secretary") == "secretary";
    assert ReplaceChar("Guard", ' ', '_') == "Guard";
    assert Lower("Guard") == "guard";
    assert ReplaceChar("Professor", ' ', '_') == "Professor";
    assert Lower("Professor") == "professor";
  }

  /** Account creation's table adds nothing to its fallback: every name is
      stored as its lowercase/underscore form. */
  lemma StoreSlugIsFallback(name: string)
    ensures AccountStoreSlug(name) == SlugFallback(name)
  {
    ListedNamesFollowFallback();
  }

  /** An administrator's edit and user creation map every name alike: as the
      fallback does, except "Professor", which both store as prof. */
  lemma EditSlugsAgree(name: string)
    ensures AccountUpdateSlug(name) == UserStoreSlug(name)
    ensures AccountUpdateSlug(name) == (if name == "Professor" then "prof" else SlugFallback(name))
  {
    ListedNamesFollowFallback();
  }

  /** Labelling a stored slug and mapping the label back through an edit or
      through user creation gives the slug again, except professor, which
      comes back as prof. */
  lemma EditSlugRoundTrip(slug: string)
    requires IsSlug(slug)
    ensures AccountUpdateSlug(RoleLabel(slug)) == (if slug == "professor" then "prof" else slug)
    ensures UserStoreSlug(RoleLabel(slug)) == AccountUpdateSlug(RoleLabel(slug))
  {
    var shown := RoleLabel(slug);
    SlugRoundTrip(slug);
    StoreSlugIsFallback(shown);
    EditSlugsAgree(shown);
    ListedNamesFollowFallback();
    if slug == "professor" {
      assert ReplaceChar(slug, '_', ' ') == "professor";
      assert shown == "Professor";
    }
  }

  /** "Program Head" is stored as program_head by an edit, and that slug is
      listed as "Program head": the listing does not give the edited name back. */
  lemma ProgramHeadLabelChanges()
    ensures AccountUpdateSlug("Program Head") == "program_head"
    ensures RoleLabel("program_head") == "Program head"
  {
    assert ReplaceChar("program_head", '_', ' ') == "program head";
  }

  /** Creating and editing an account map "Professor" differently. */
  lemma ProfessorMapsDiffer()
    ensures AccountStoreSlug("Professor") == "professor"
    ensures AccountUpdateSlug("Professor") == "prof"
    ensures UserStoreSlug("Professor") == "prof"
  {
    assert ReplaceChar("Professor", ' ', '_') == "Professor";
    assert Lower("Professor") == "professor";
  }
}
