/**
 * Text normalisation applied to crawled text before it is stored:
 * folding of Vietnamese letters onto plain Latin letters, and removal of
 * NUL characters from every value of a record about to be written.
 */
module TextNormalizer {

  // ---------------------------------------------------------------------
  // Vietnamese folding
  // ---------------------------------------------------------------------

  /**
   * The folding table as the source writes it: each base letter with the
   * characters replaced by it, in the order the replacement loop visits them.
   */
  const FoldTable: seq<(char, string)> := [
    ('a', "áàãạảAÁÀÃẠẢăắằẵặẳĂẮẰẴẶẲâầấẫậẩÂẤẦẪẬẨ"),
    ('e', "éèẽẹẻEÉÈẼẸẺêếềễệểÊẾỀỄỆỂ"),
    ('i', "íìĩịỉIÍÌĨỊỈ"),
    ('o', "óòõọỏOÓÒÕỌỎôốồỗộổÔỐỒỖỘỔơớờỡợởƠỚỜỠỢỞ"),
    ('u', "úùũụủUÚÙŨỤỦưứừữựửƯỨỪỮỰỬ"),
    ('y', "ýỳỹỵỷYÝỲỸỴỶ"),
    ('d', "dđĐD")
  ]

  // The same partition stated letter by letter, one character class per base
  // letter. FoldChar below is defined from these classes; the lemmas after it
  // show that they agree with FoldTable entry by entry.

  /** The characters the table lists under 'a'. */
  predicate FoldsToA(c: char) {
    c == 'á' || c == 'à' || c == 'ã' || c == 'ạ' || c == 'ả' || c == 'A'
    || c == 'Á' || c == 'À' || c == 'Ã' || c == 'Ạ' || c == 'Ả' || c == 'ă'
    || c == 'ắ' || c == 'ằ' || c == 'ẵ' || c == 'ặ' || c == 'ẳ' || c == 'Ă'
    || c == 'Ắ' || c == 'Ằ' || c == 'Ẵ' || c == 'Ặ' || c == 'Ẳ' || c == 'â'
    || c == 'ầ' || c == 'ấ' || c == 'ẫ' || c == 'ậ' || c == 'ẩ' || c == 'Â'
    || c == 'Ấ' || c == 'Ầ' || c == 'Ẫ' || c == 'Ậ' || c == 'Ẩ'
  }

  /** The characters the table lists under 'e'. */
  predicate FoldsToE(c: char) {
    c == 'é' || c == 'è' || c == 'ẽ' || c == 'ẹ' || c == 'ẻ' || c == 'E'
    || c == 'É' || c == 'È' || c == 'Ẽ' || c == 'Ẹ' || c == 'Ẻ' || c == 'ê'
    || c == 'ế' || c == 'ề' || c == 'ễ' || c == 'ệ' || c == 'ể' || c == 'Ê'
    || c == 'Ế' || c == 'Ề' || c == 'Ễ' || c == 'Ệ' || c == 'Ể'
  }

  /** The characters the table lists under 'i'. */
  predicate FoldsToI(c: char) {
    c == 'í' || c == 'ì' || c == 'ĩ' || c == 'ị' || c == 'ỉ' || c == 'I'
    || c == 'Í' || c == 'Ì' || c == 'Ĩ' || c == 'Ị' || c == 'Ỉ'
  }

  /** The characters the table lists under 'o'. */
  predicate FoldsToO(c: char) {
    c == 'ó' || c == 'ò' || c == 'õ' || c == 'ọ' || c == 'ỏ' || c == 'O'
    || c == 'Ó' || c == 'Ò' || c == 'Õ' || c == 'Ọ' || c == 'Ỏ' || c == 'ô'
    || c == 'ố' || c == 'ồ' || c == 'ỗ' || c == 'ộ' || c == 'ổ' || c == 'Ô'
    || c == 'Ố' || c == 'Ồ' || c == 'Ỗ' || c == 'Ộ' || c == 'Ổ' || c == 'ơ'
    || c == 'ớ' || c == 'ờ' || c == 'ỡ' || c == 'ợ' || c == 'ở' || c == 'Ơ'
    || c == 'Ớ' || c == 'Ờ' || c == 'Ỡ' || c == 'Ợ' || c == 'Ở'
  }

  /** The characters the table lists under 'u'. */
  predicate FoldsToU(c: char) {
    c == 'ú' || c == 'ù' || c == 'ũ' || c == 'ụ' || c == 'ủ' || c == 'U'
    || c == 'Ú' || c == 'Ù' || c == 'Ũ' || c == 'Ụ' || c == 'Ủ' || c == 'ư'
    || c == 'ứ' || c == 'ừ' || c == 'ữ' || c == 'ự' || c == 'ử' || c == 'Ư'
    || c == 'Ứ' || c == 'Ừ' || c == 'Ữ' || c == 'Ự' || c == 'Ử'
  }

  /** The characters the table lists under 'y'. */
  predicate FoldsToY(c: char) {
    c == 'ý' || c == 'ỳ' || c == 'ỹ' || c == 'ỵ' || c == 'ỷ' || c == 'Y'
    || c == 'Ý' || c == 'Ỳ' || c == 'Ỹ' || c == 'Ỵ' || c == 'Ỷ'
  }

  /** The characters the table lists under 'd'. */
  predicate FoldsToD(c: char) {
    c == 'd' || c == 'đ' || c == 'Đ' || c == 'D'
  }

  /**
   * What folding does to one character: a listed character becomes the
   * lower-case base letter of its class, every other character stays.
   */
  function FoldChar(c: char): char {
    if FoldsToA(c) then 'a'
    else if FoldsToE(c) then 'e'
    else if FoldsToI(c) then 'i'
    else if FoldsToO(c) then 'o'
    else if FoldsToU(c) then 'u'
    else if FoldsToY(c) then 'y'
    else if FoldsToD(c) then 'd'
    else c
  }

  /** The intended result of folding a whole string: character by character. */
  function Fold(s: string): string {
    seq(|s|, j requires 0 <= j < |s| => FoldChar(s[j]))
  }

  /** Python's `str.replace` with a one-character pattern and replacement. */
  function Replace(s: string, from: char, to: char): string {
    seq(|s|, j requires 0 <= j < |s| => if s[j] == from then to else s[j])
  }

  /** `c` occurs in the table before position `i` of entry `t`. */
  ghost predicate Visited(t: nat, i: nat, c: char) {
    exists u, k :: 0 <= u < |FoldTable| && 0 <= k < |FoldTable[u].1|
      && (u < t || (u == t && k < i)) && FoldTable[u].1[k] == c
  }

  /**
   * The replacement loop: for every entry of the table, in order, and every
   * character listed in it, in order, replace that character everywhere by
   * the entry's base letter. The result is the character-wise fold.
   */
  method VietnameseReplace(s: string) returns (r: string)
    ensures r == Fold(s)
  {
    r := s;
    for t := 0 to |FoldTable|
      invariant |r| == |s|
      invariant forall j :: 0 <= j < |s| ==>
        r[j] == if Visited(t, 0, s[j]) then FoldChar(s[j]) else s[j]
    {
      var (alpha, letters) := FoldTable[t];
      for i := 0 to |letters|
        invariant |r| == |s|
        invariant forall j :: 0 <= j < |s| ==>
          r[j] == if Visited(t, i, s[j]) then FoldChar(s[j]) else s[j]
      {
        ReplaceStep(r, s, t, i);
        r := Replace(r, letters[i], alpha);
      }
      forall c ensures Visited(t, |letters|, c) <==> Visited(t + 1, 0, c) {
        if Visited(t + 1, 0, c) {
          var u, k :| 0 <= u < |FoldTable| && 0 <= k < |FoldTable[u].1|
            && (u < t + 1 || (u == t + 1 && k < 0)) && FoldTable[u].1[k] == c;
          assert u < t || (u == t && k < |letters|);
        }
      }
    }
    forall j | 0 <= j < |s| ensures r[j] == FoldChar(s[j]) {
      if !Visited(|FoldTable|, 0, s[j]) {
        Unlisted(s[j]);
      }
    }
  }

  /** One replacement of the loop keeps its invariant. */
  lemma ReplaceStep(r: string, s: string, t: nat, i: nat)
    requires t < |FoldTable| && i < |FoldTable[t].1| && |r| == |s|
    requires forall j :: 0 <= j < |s| ==>
      r[j] == if Visited(t, i, s[j]) then FoldChar(s[j]) else s[j]
    ensures forall j :: 0 <= j < |s| ==>
      Replace(r, FoldTable[t].1[i], FoldTable[t].0)[j]
        == if Visited(t, i + 1, s[j]) then FoldChar(s[j]) else s[j]
  {
    var ch, alpha := FoldTable[t].1[i], FoldTable[t].0;
    ListedFolds(t, i);
    forall j | 0 <= j < |s|
      ensures Replace(r, ch, alpha)[j] == if Visited(t, i + 1, s[j]) then FoldChar(s[j]) else s[j]
    {
      var c := s[j];
      if Visited(t, i, c) {
        var u, k :| 0 <= u < |FoldTable| && 0 <= k < |FoldTable[u].1|
          && (u < t || (u == t && k < i)) && FoldTable[u].1[k] == c;
        assert Visited(t, i + 1, c);
        FoldCharIdempotent(c);
      } else if c == ch {
        assert Visited(t, i + 1, c);
      }
    }
  }

  /** The character class of each letter is exactly the table's list for that letter. */
  lemma ClassesAreListed(c: char)
    ensures FoldsToA(c) <==> c in FoldTable[0].1
    ensures FoldsToE(c) <==> c in FoldTable[1].1
    ensures FoldsToI(c) <==> c in FoldTable[2].1
    ensures FoldsToO(c) <==> c in FoldTable[3].1
    ensures FoldsToU(c) <==> c in FoldTable[4].1
    ensures FoldsToY(c) <==> c in FoldTable[5].1
    ensures FoldsToD(c) <==> c in FoldTable[6].1
  {
    ClassA(c);
    ClassE(c);
    ClassI(c);
    ClassO(c);
    ClassU(c);
    ClassY(c);
    ClassD(c);
  }

  // One lemma per letter keeps each proof obligation small.

  lemma ClassA(c: char)
    ensures FoldsToA(c) <==> c in FoldTable[0].1
  {
    if c in FoldTable[0].1 {
      var i :| 0 <= i < |FoldTable[0].1| && FoldTable[0].1[i] == c;
      ListedA(i);
    }
  }

  lemma ClassE(c: char)
    ensures FoldsToE(c) <==> c in FoldTable[1].1
  {
    if c in FoldTable[1].1 {
      var i :| 0 <= i < |FoldTable[1].1| && FoldTable[1].1[i] == c;
      ListedE(i);
    }
  }

  lemma ClassI(c: char)
    ensures FoldsToI(c) <==> c in FoldTable[2].1
  {
    if c in FoldTable[2].1 {
      var i :| 0 <= i < |FoldTable[2].1| && FoldTable[2].1[i] == c;
      ListedI(i);
    }
  }

  lemma ClassO(c: char)
    ensures FoldsToO(c) <==> c in FoldTable[3].1
  {
    if c in FoldTable[3].1 {
      var i :| 0 <= i < |FoldTable[3].1| && FoldTable[3].1[i] == c;
      ListedO(i);
    }
  }

  lemma ClassU(c: char)
    ensures FoldsToU(c) <==> c in FoldTable[4].1
  {
    if c in FoldTable[4].1 {
      var i :| 0 <= i < |FoldTable[4].1| && FoldTable[4].1[i] == c;
      ListedU(i);
    }
  }

  lemma ClassY(c: char)
    ensures FoldsToY(c) <==> c in FoldTable[5].1
  {
    if c in FoldTable[5].1 {
      var i :| 0 <= i < |FoldTable[5].1| && FoldTable[5].1[i] == c;
      ListedY(i);
    }
  }

  lemma ClassD(c: char)
    ensures FoldsToD(c) <==> c in FoldTable[6].1
  {
    if c in FoldTable[6].1 {
      var i :| 0 <= i < |FoldTable[6].1| && FoldTable[6].1[i] == c;
      ListedD(i);
    }
  }

  /** A character the table does not list is left unchanged. */
  lemma Unlisted(c: char)
    requires forall t :: 0 <= t < |FoldTable| ==> c !in FoldTable[t].1
    ensures FoldChar(c) == c
  {
    ClassesAreListed(c);
  }

  /** A character listed under a base letter folds to that letter. */
  lemma ListedFolds(t: nat, i: nat)
    requires t < |FoldTable| && i < |FoldTable[t].1|
    ensures FoldChar(FoldTable[t].1[i]) == FoldTable[t].0
  {
    match t
    case 0 => ListedA(i);
    case 1 => ListedE(i);
    case 2 => ListedI(i);
    case 3 => ListedO(i);
    case 4 => ListedU(i);
    case 5 => ListedY(i);
    case 6 => ListedD(i);
  }

  // Likewise one lemma per table entry.

  lemma ListedA(i: nat)
    requires i < |FoldTable[0].1|
    ensures FoldChar(FoldTable[0].1[i]) == 'a'
    ensures FoldsToA(FoldTable[0].1[i])
  {
    var c := FoldTable[0].1[i];
    assert FoldsToA(c);
  }

  lemma ListedE(i: nat)
    requires i < |FoldTable[1].1|
    ensures FoldChar(FoldTable[1].1[i]) == 'e'
    ensures FoldsToE(FoldTable[1].1[i])
  {
    var c := FoldTable[1].1[i];
    assert !FoldsToA(c) && FoldsToE(c);
  }

  lemma ListedI(i: nat)
    requires i < |FoldTable[2].1|
    ensures FoldChar(FoldTable[2].1[i]) == 'i'
    ensures FoldsToI(FoldTable[2].1[i])
  {
    var c := FoldTable[2].1[i];
    assert !FoldsToA(c) && !FoldsToE(c) && FoldsToI(c);
  }

  lemma ListedO(i: nat)
    requires i < |FoldTable[3].1|
    ensures FoldChar(FoldTable[3].1[i]) == 'o'
    ensures FoldsToO(FoldTable[3].1[i])
  {
    var c := FoldTable[3].1[i];
    assert !FoldsToA(c) && !FoldsToE(c) && !FoldsToI(c) && FoldsToO(c);
  }

  lemma ListedU(i: nat)
    requires i < |FoldTable[4].1|
    ensures FoldChar(FoldTable[4].1[i]) == 'u'
    ensures FoldsToU(FoldTable[4].1[i])
  {
    var c := FoldTable[4].1[i];
    assert !FoldsToA(c) && !FoldsToE(c) && !FoldsToI(c) && !FoldsToO(c) && FoldsToU(c);
  }

  lemma ListedY(i: nat)
    requires i < |FoldTable[5].1|
    ensures FoldChar(FoldTable[5].1[i]) == 'y'
    ensures FoldsToY(FoldTable[5].1[i])
  {
    var c := FoldTable[5].1[i];
    assert !FoldsToA(c) && !FoldsToE(c) && !FoldsToI(c) && !FoldsToO(c) && !FoldsToU(c) && FoldsToY(c);
  }

  lemma ListedD(i: nat)
    requires i < |FoldTable[6].1|
    ensures FoldChar(FoldTable[6].1[i]) == 'd'
    ensures FoldsToD(FoldTable[6].1[i])
  {
    var c := FoldTable[6].1[i];
    assert !FoldsToA(c) && !FoldsToE(c) && !FoldsToI(c) && !FoldsToO(c) && !FoldsToU(c) && !FoldsToY(c) && FoldsToD(c);
  }

  /** Folding twice is folding once: base letters fold to themselves. */
  lemma FoldCharIdempotent(c: char)
    ensures FoldChar(FoldChar(c)) == FoldChar(c)
  {}

  /** Folding works on each character independently. */
  lemma FoldConcat(a: string, b: string)
    ensures Fold(a + b) == Fold(a) + Fold(b)
  {}

  /** Folding an already folded string changes nothing. */
  lemma FoldIdempotent(s: string)
    ensures Fold(Fold(s)) == Fold(s)
  {}

  /**
   * No listed character other than a base letter itself survives folding:
   * in particular every upper-case letter of the table is gone.
   */
  lemma FoldLeavesNoListedCharacter(s: string, t: nat, i: nat)
    requires t < |FoldTable| && i < |FoldTable[t].1|
    requires FoldTable[t].1[i] != FoldTable[t].0
    ensures FoldTable[t].1[i] !in Fold(s)
  {
    var ch := FoldTable[t].1[i];
    ListedFolds(t, i);
    forall j | 0 <= j < |s| ensures Fold(s)[j] != ch {
      FoldCharIdempotent(s[j]);
    }
  }

  /**
   * Case is not preserved: listed upper-case letters fold to lower-case base
   * letters, while unlisted letters (here 'N') keep their case.
   */
  lemma FoldLowersListedCase()
    ensures FoldChar('Ạ') == 'a' && FoldChar('Đ') == 'd' && FoldChar('Y') == 'y'
    ensures FoldChar('A') == 'a' && FoldChar('N') == 'N'
  {}

  // ---------------------------------------------------------------------
  // NUL stripping
  // ---------------------------------------------------------------------

  /** `str(v).replace('\x00', "")` on a value that already is a string. */
  function StripNul(s: string): string {
    if s == [] then [] else (if s[0] == '\0' then [] else [s[0]]) + StripNul(s[1..])
  }

  /** The intended result of stripping a whole record: every value stripped. */
  function StripValues(m: map<string, string>): map<string, string> {
    map k | k in m :: StripNul(m[k])
  }

  /** Stripping removes every NUL, wherever and however often it occurs. */
  lemma {:induction false} StripNulRemovesAll(s: string)
    ensures '\0' !in StripNul(s)
  {
    if s != [] { StripNulRemovesAll(s[1..]); }
  }

  /** Stripping keeps every other character, as many times as it occurs. */
  lemma {:induction false} StripNulKeepsOthers(s: string, c: char)
    requires c != '\0'
    ensures multiset(StripNul(s))[c] == multiset(s)[c]
  {
    if s != [] {
      StripNulKeepsOthers(s[1..], c);
      assert s == [s[0]] + s[1..];
    }
  }

  /** Stripping works piece by piece, so the kept characters keep their order. */
  lemma {:induction false} StripNulConcat(a: string, b: string)
    ensures StripNul(a + b) == StripNul(a) + StripNul(b)
  {
    if a != [] {
      assert (a + b)[1..] == a[1..] + b;
      StripNulConcat(a[1..], b);
    } else {
      assert a + b == b;
    }
  }

  /** A string without NUL is left as it is. */
  lemma {:induction false} StripNulKeepsClean(s: string)
    requires '\0' !in s
    ensures StripNul(s) == s
  {
    if s != [] {
      StripNulKeepsClean(s[1..]);
    }
  }

  /** Stripping twice is stripping once. */
  lemma {:induction false} StripNulIdempotent(s: string)
    ensures StripNul(StripNul(s)) == StripNul(s)
  {
    StripNulRemovesAll(s);
    StripNulKeepsClean(StripNul(s));
  }

  /** Stripping a record keeps its keys, removes every NUL and is idempotent. */
  lemma StripValuesProperties(m: map<string, string>)
    ensures StripValues(m).Keys == m.Keys
    ensures forall k :: k in m ==> '\0' !in StripValues(m)[k]
    ensures StripValues(StripValues(m)) == StripValues(m)
  {
    forall k | k in m ensures '\0' !in StripValues(m)[k] && StripNul(StripNul(m[k])) == StripNul(m[k]) {
      StripNulRemovesAll(m[k]);
      StripNulIdempotent(m[k]);
    }
  }

  /** A record (field name to value) on its way to the database, changed in place. */
  class Record {
    var fields: map<string, string>

    constructor (fields: map<string, string>)
      ensures this.fields == fields
    {
      this.fields := fields;
    }

    /**
     * Replaces every value by its NUL-stripped form, one key at a time, and
     * returns the record itself.
     */
    method PgsqlNulReplace() returns (same: Record)
      modifies this
      ensures same == this
      ensures fields == StripValues(old(fields))
    {
      ghost var original := fields;
      var pending := fields.Keys;
      while pending != {}
        invariant pending <= original.Keys
        invariant fields.Keys == original.Keys
        invariant forall k :: k in fields ==>
          fields[k] == if k in pending then original[k] else StripNul(original[k])
        decreases pending
      {
        var k :| k in pending;
        fields := fields[k := StripNul(fields[k])];
        pending := pending - {k};
      }
      same := this;
    }
  }
}
