/** The profile page's editing form: the interests field is shown as one
    comma-separated string and parsed back into a list when the profile is
    saved. */
module ProfilePage {
  import opened Wrappers
  import opened Text
  import opened Store
  import Profile

  /** `.map(i => i.trim())`. */
  function TrimAll(parts: seq<string>): (r: seq<string>)
    ensures |r| == |parts|
  {
    seq(|parts|, i requires 0 <= i < |parts| => Trim(parts[i]))
  }

  /** `.filter(i => i)`: the empty strings are dropped, the rest keep their order. */
  function NonEmpty(xs: seq<string>): (r: seq<string>)
    ensures |r| <= |xs|
  {
    if xs == [] then []
    else if xs[0] != "" then [xs[0]] + NonEmpty(xs[1..])
    else NonEmpty(xs[1..])
  }

  /** `editData.interests.split(',').map(i => i.trim()).filter(i => i)`. */
  function ParseInterests(s: string): seq<string> {
    NonEmpty(TrimAll(Split(s, ',')))
  }

  /** An interest the parser can give back. */
  predicate WellFormed(x: string) {
    x != "" && IsTrimmed(x) && ',' !in x
  }

  /** Every parsed interest is non-empty, equal to its own trim and free of
      commas. */
  lemma {:induction false} ParsedInterestsWellFormed(s: string)
    ensures forall x :: x in ParseInterests(s) ==> WellFormed(x)
  {
    var parts := Split(s, ',');
    var trimmed := TrimAll(parts);
    SplitPiecesSeparatorFree(s, ',');
    forall i | 0 <= i < |trimmed|
      ensures trimmed[i] == "" || WellFormed(trimmed[i])
    {
      TrimKeepsCharacters(parts[i]);
      TrimIsTrimmed(parts[i]);
    }
    NonEmptyKeepsWellFormed(trimmed);
  }

  /** The filter drops exactly the empty strings: what remains of strings
      that are empty or well formed is well formed. */
  lemma {:induction false} NonEmptyKeepsWellFormed(xs: seq<string>)
    requires forall i :: 0 <= i < |xs| ==> xs[i] == "" || WellFormed(xs[i])
    ensures forall x :: x in NonEmpty(xs) ==> WellFormed(x)
  {
    if xs != [] {
      NonEmptyKeepsWellFormed(xs[1..]);
    }
  }

  /** `trim` only removes characters. */
  lemma {:induction false} TrimKeepsCharacters(s: string)
    ensures forall c :: c in Trim(s) ==> c in s
  {
    TrimIsInfix(s);
    forall c | c in Trim(s)
      ensures c in s
    {
      var j :| 0 <= j < |Trim(s)| && Trim(s)[j] == c;
      assert s[Lead(s) + j] == c;
    }
  }

  lemma {:induction false} TrimAllAppend(a: seq<string>, b: seq<string>)
    ensures TrimAll(a + b) == TrimAll(a) + TrimAll(b)
  {
    assert forall i :: 0 <= i < |a| + |b| ==> (a + b)[i] == if i < |a| then a[i] else b[i - |a|];
  }

  lemma {:induction false} NonEmptyAppend(a: seq<string>, b: seq<string>)
    ensures NonEmpty(a + b) == NonEmpty(a) + NonEmpty(b)
  {
    if a == [] {
      assert a + b == b;
    } else {
      assert (a + b)[0] == a[0];
      assert (a + b)[1..] == a[1..] + b;
      NonEmptyAppend(a[1..], b);
      if a[0] != "" {
        calc {
          NonEmpty(a + b);
          [a[0]] + NonEmpty(a[1..] + b);
          [a[0]] + (NonEmpty(a[1..]) + NonEmpty(b));
          NonEmpty(a) + NonEmpty(b);
        }
      }
    }
  }

  /** `split` at a separator splits the parts: the parts of the text before
      it, then the parts of the text after it. */
  lemma {:induction false} SplitAtSeparator(a: string, sep: char, b: string)
    ensures Split(a + [sep] + b, sep) == Split(a, sep) + Split(b, sep)
  {
    var s := a + [sep] + b;
    if a == [] {
      assert s == [sep] + b;
      assert s[1..] == b;
    } else {
      assert s[0] == a[0];
      assert s[1..] == a[1..] + [sep] + b;
      SplitAtSeparator(a[1..], sep, b);
    }
  }

  /** The interests of the text on either side of a comma are parsed
      independently and kept in order. */
  lemma {:induction false} ParseAtComma(a: string, b: string)
    ensures ParseInterests(a + "," + b) == ParseInterests(a) + ParseInterests(b)
  {
    SplitAtSeparator(a, ',', b);
    TrimAllAppend(Split(a, ','), Split(b, ','));
    NonEmptyAppend(TrimAll(Split(a, ',')), TrimAll(Split(b, ',')));
  }

  /** `split` of a text with no separator is that text alone. */
  lemma {:induction false} SplitWithoutSeparator(s: string, sep: char)
    requires sep !in s
    ensures Split(s, sep) == [s]
  {
    if s != [] {
      assert sep !in s[1..] by {
        forall c | c in s[1..]
          ensures c != sep
        {
          var j :| 0 <= j < |s[1..]| && s[1..][j] == c;
          assert s[j + 1] == c;
        }
      }
      SplitWithoutSeparator(s[1..], sep);
      assert s[0] != sep;
      assert [s[0]] + s[1..] == s;
    }
  }

  /** Every part of `split(',')` of a text of whitespace and commas is blank. */
  lemma {:induction false} SplitOfBlank(s: string)
    requires forall i :: 0 <= i < |s| ==> IsSpace(s[i]) || s[i] == ','
    ensures forall i :: 0 <= i < |Split(s, ',')| ==> AllSpace(Split(s, ',')[i])
  {
    if s != [] {
      var rest := Split(s[1..], ',');
      assert forall i :: 0 <= i < |s[1..]| ==> s[1..][i] == s[i + 1];
      SplitOfBlank(s[1..]);
      if s[0] != ',' {
        var first := [s[0]] + rest[0];
        assert forall j :: 0 < j < |first| ==> first[j] == rest[0][j - 1];
      }
    }
  }

  /** Blank parts all trim to the empty string. */
  lemma {:induction false} TrimAllOfBlanks(parts: seq<string>)
    requires forall i :: 0 <= i < |parts| ==> AllSpace(parts[i])
    ensures forall i :: 0 <= i < |parts| ==> TrimAll(parts)[i] == ""
  {
    forall i | 0 <= i < |parts|
      ensures TrimAll(parts)[i] == ""
    {
      TrimEmptyIffBlank(parts[i]);
    }
  }

  /** Empty input, whitespace or commas alone parse to no interests. */
  lemma {:induction false} BlankParsesToNothing(s: string)
    requires forall i :: 0 <= i < |s| ==> IsSpace(s[i]) || s[i] == ','
    ensures ParseInterests(s) == []
  {
    SplitOfBlank(s);
    TrimAllOfBlanks(Split(s, ','));
    NonEmptyOfBlanks(TrimAll(Split(s, ',')));
  }

  lemma {:induction false} NonEmptyOfBlanks(xs: seq<string>)
    requires forall i :: 0 <= i < |xs| ==> xs[i] == ""
    ensures NonEmpty(xs) == []
  {
    if xs != [] {
      NonEmptyOfBlanks(xs[1..]);
    }
  }

  /** A leading space makes no difference to the interests parsed. */
  lemma {:induction false} ParseAfterSpace(s: string)
    ensures ParseInterests(" " + s) == ParseInterests(s)
  {
    TrimmedPartsAfterSpace(s);
  }

  lemma {:induction false} TrimmedPartsAfterSpace(s: string)
    ensures TrimAll(Split(" " + s, ',')) == TrimAll(Split(s, ','))
  {
    var rest := Split(s, ',');
    var spaced := Split(" " + s, ',');
    SplitAfterOther(' ', s, ',');
    assert |spaced| == |rest| && spaced[0] == " " + rest[0];
    assert forall i :: 0 < i < |rest| ==> spaced[i] == rest[i];
    TrimAfterSpace(rest[0]);
  }

  /** `split` of a text that starts with another character: that character
      joins the first part. */
  lemma {:induction false} SplitAfterOther(c: char, s: string, sep: char)
    requires c != sep
    ensures Split([c] + s, sep) == [[c] + Split(s, sep)[0]] + Split(s, sep)[1..]
  {
    assert ([c] + s)[1..] == s;
  }

  /** The interests of `x + ', ' + rest` are those of `x`, then those of `rest`. */
  lemma {:induction false} ParseAtListSeparator(x: string, rest: string)
    ensures ParseInterests(x + ", " + rest) == ParseInterests(x) + ParseInterests(rest)
  {
    var spaced := " " + rest;
    assert x + ", " + rest == x + "," + spaced;
    ParseAtComma(x, spaced);
    ParseAfterSpace(rest);
    calc {
      ParseInterests(x + ", " + rest);
      ParseInterests(x + "," + spaced);
      ParseInterests(x) + ParseInterests(spaced);
      ParseInterests(x) + ParseInterests(rest);
    }
  }

  /** `interests.join(', ')` parses back to the same list whenever every
      interest is well formed. */
  lemma {:induction false} JoinThenParse(xs: seq<string>)
    requires forall x :: x in xs ==> WellFormed(x)
    ensures ParseInterests(Join(xs, ", ")) == xs
  {
    if |xs| == 1 {
      ParseOne(xs[0]);
    } else if |xs| > 1 {
      var tail := Join(xs[1..], ", ");
      ParseAtListSeparator(xs[0], tail);
      ParseOne(xs[0]);
      JoinThenParse(xs[1..]);
      calc {
        ParseInterests(Join(xs, ", "));
        ParseInterests(xs[0] + ", " + tail);
        ParseInterests(xs[0]) + ParseInterests(tail);
        [xs[0]] + xs[1..];
        xs;
      }
    }
  }

  /** A single well-formed interest parses to itself. */
  lemma {:induction false} ParseOne(x: string)
    requires WellFormed(x)
    ensures ParseInterests(x) == [x]
  {
    SplitWithoutSeparator(x, ',');
    TrimFixesExactlyTrimmed(x);
  }

  /** The editing form's three text fields. */
  datatype EditData = EditData(bio: string, location: string, interests: string)

  /** The form as the page fills it from the fetched user: `bio || ''`,
      `location || ''` and `interests?.join(', ') || ''`. */
  function InitialEditData(bio: Option<string>, location: Option<string>, interests: Option<seq<string>>): (e: EditData)
    ensures e.bio == bio.GetOr("") && e.location == location.GetOr("")
    ensures interests.None? ==> e.interests == ""
    ensures interests.Some? ==> e.interests == Join(interests.value, ", ")
  {
    var shown := if interests.Some? then Some(Join(interests.value, ", ")) else None;
    EditData(OrDefault(bio, ""), OrDefault(location, ""), OrDefault(shown, ""))
  }

  /** Saving the form unedited sends the stored interests back as they were,
      when they are well formed; missing interests are sent as none. */
  lemma {:induction false} UneditedSaveKeepsInterests(bio: Option<string>, location: Option<string>, interests: Option<seq<string>>)
    requires interests.Some? ==> forall x :: x in interests.value ==> WellFormed(x)
    ensures ParseInterests(InitialEditData(bio, location, interests).interests) == interests.GetOr([])
  {
    if interests.Some? {
      JoinThenParse(interests.value);
    } else {
      BlankParsesToNothing("");
    }
  }

  /** The body of `PUT /profile/update`; a field that is not sent is None. */
  datatype UpdateBody = UpdateBody(bio: Option<string>, location: Option<string>,
                                   interests: Option<seq<string>>, picture: Option<string>)

  /** `handleSaveProfile`'s request body: the bio and location as typed and
      the parsed interests; the picture is not sent. */
  function SaveRequest(e: EditData): (q: UpdateBody)
    ensures q.bio == Some(e.bio) && q.location == Some(e.location) && q.picture.None?
    ensures q.interests.Some? && forall x :: x in q.interests.value ==> WellFormed(x)
  {
    ParsedInterestsWellFormed(e.interests);
    UpdateBody(Some(e.bio), Some(e.location), Some(ParseInterests(e.interests)), None)
  }

  /** Opening the editor on a stored user and saving without typing leaves
      that user's record as it was, when the stored interests are well formed. */
  lemma {:induction false} UneditedSaveKeepsUser(users: seq<User>, i: nat, res: Result<User, Status>, users': seq<User>)
    requires UniqueIds(users, UserId) && i < |users|
    requires forall x :: x in users[i].interests ==> WellFormed(x)
    requires var u := users[i];
             var q := SaveRequest(InitialEditData(Some(u.bio), Some(u.location), Some(u.interests)));
             Profile.UpdateSpec(users, u.id, q.bio, q.location, q.interests, q.picture, res, users')
    ensures users' == users
  {
    var u := users[i];
    IndexOfUnique(users, UserId, u.id, i);
    UneditedSaveKeepsInterests(Some(u.bio), Some(u.location), Some(u.interests));
    assert res.value == u;
    assert users' == users;
  }
}
