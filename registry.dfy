/** The fixed tables the extractor consults: the teacher-code to subject map
    and the list of valid room numbers. Both are looked up by a search over
    their entries, so a lookup says no more than the entries it meets. */
module Registry {
  import opened Wrappers

  /** The keys of `SUBJECT_MAP`, the two-letter teacher codes, in the order
      the dictionary is written. */
  const Codes: seq<string> :=
    ["HG", "DL", "MM", "KN", "BR", "SK", "ŠT", "CV", "ES", "HK", "RK", "RO", "NP", "VI"]

  /** The values of `SUBJECT_MAP`: `Names[k]` is the subject taught by the
      teacher `Codes[k]`. */
  const Names: seq<string> := [
    "Fizika", "Matematika", "Povijest", "Informatika", "Hrvatski Jezik",
    "Engleski Jezik", "Kemija", "Latinski", "Biologija", "Likovna umjetnost",
    "Tjelesna i zdravstvena kultura", "Glazbena umjetnost", "Vjeronauk - Nista", "Etika"
  ]

  /** The position of `code` among `keys` from `i` on, or `|keys|` when it is
      not one of them. */
  function IndexFrom(keys: seq<string>, code: string, i: nat): nat
    requires i <= |keys|
    decreases |keys| - i
  {
    if i == |keys| then i
    else if keys[i] == code then i
    else IndexFrom(keys, code, i + 1)
  }

  /** The position of `code` in the dictionary. */
  function Index(code: string): nat {
    IndexFrom(Codes, code, 0)
  }

  /** `code in SUBJECT_MAP`. */
  predicate Known(code: string) {
    Index(code) < |Codes|
  }

  /** `SUBJECT_MAP[code]`. */
  function Subject(code: string): string
    requires Known(code)
  {
    TablesAligned();
    Names[Index(code)]
  }

  /** `SUBJECT_MAP.get(code, default)`. */
  function Get(code: string, default: string): (r: string)
    ensures Known(code) ==> r == Subject(code)
    ensures !Known(code) ==> r == default
  {
    if Known(code) then Subject(code) else default
  }

  /** Every key has a value. */
  lemma TablesAligned()
    ensures |Codes| == |Names|
  {
  }

  /** A search from `i` stops at the first position on where the key is
      `code`, and runs off the end when there is none. */
  lemma {:induction false} IndexFromFinds(keys: seq<string>, code: string, i: nat)
    requires i <= |keys|
    ensures i <= IndexFrom(keys, code, i) <= |keys|
    ensures IndexFrom(keys, code, i) < |keys| ==> keys[IndexFrom(keys, code, i)] == code
    ensures forall j | i <= j < IndexFrom(keys, code, i) :: keys[j] != code
    decreases |keys| - i
  {
    if i < |keys| && keys[i] != code {
      IndexFromFinds(keys, code, i + 1);
    }
  }

  /** A code is known exactly when it is one of the keys, and it is then
      found at its own position, the first one holding it. */
  lemma IndexFinds(code: string)
    ensures Known(code) <==> code in Codes
    ensures Known(code) ==> Codes[Index(code)] == code
    ensures forall j | 0 <= j < Index(code) :: Codes[j] != code
  {
    IndexFromFinds(Codes, code, 0);
  }

  /** No code is written twice, so the table is a dictionary. */
  lemma CodesDistinct()
    ensures forall j, k | 0 <= j < k < |Codes| :: Codes[j] != Codes[k]
  {
  }

  /** Every entry is what a lookup of its code gives. */
  lemma LookupEntries()
    ensures forall k | 0 <= k < |Codes| :: Known(Codes[k]) && Subject(Codes[k]) == Names[k]
  {
    CodesDistinct();
    forall k | 0 <= k < |Codes| ensures Known(Codes[k]) && Subject(Codes[k]) == Names[k] {
      IndexFinds(Codes[k]);
    }
  }

  /** Every known teacher code is exactly two characters long, both of them
      capital letters. */
  lemma CodesHaveTwoChars(code: string)
    requires Known(code)
    ensures |code| == 2
    ensures forall i | 0 <= i < |code| :: 'A' <= code[i] <= 'Z' || code[i] == 'Š'
  {
    IndexFinds(code);
    var k := Index(code);
    assert code == Codes[k];
    assert code[0] in "HDMKBSŠCEHRNV" && code[1] in "GLMNRKTVSIOPI" && |code| == 2;
  }

  /** No subject name is one of the sentinels the parser writes. */
  lemma SubjectsAreNotSentinels(code: string)
    requires Known(code)
    ensures Subject(code) != "Unknown" && Subject(code) != "Multiple"
  {
    assert forall k | 0 <= k < |Names| :: Names[k] != "Unknown" && Names[k] != "Multiple";
  }

  /** `ROOM_NUMBERS`: the list `[1, 2, ..., 28]`. */
  const RoomNumbers: seq<int> :=
    [1, 2, 3, 4, 5, 6, 7, 8, 9, 10, 11, 12, 13, 14, 15, 16, 17, 18, 19, 20, 21, 22, 23, 24, 25, 26, 27, 28]

  /** `n` occurs in the list from position `i` on. */
  predicate InRooms(n: int, i: nat)
    requires i <= |RoomNumbers|
    decreases |RoomNumbers| - i
  {
    i < |RoomNumbers| && (RoomNumbers[i] == n || InRooms(n, i + 1))
  }

  /** `n in ROOM_NUMBERS`. */
  predicate IsRoom(n: int) {
    InRooms(n, 0)
  }

  lemma {:induction false} InRoomsFrom(n: int, i: nat)
    requires i <= |RoomNumbers|
    ensures InRooms(n, i) <==> i + 1 <= n <= 28
    decreases |RoomNumbers| - i
  {
    if i < |RoomNumbers| {
      assert RoomNumbers[i] == i + 1;
      InRoomsFrom(n, i + 1);
    }
  }

  /** Membership in `ROOM_NUMBERS` is the range test 1..28. */
  lemma RoomNumbersRange(n: int)
    ensures IsRoom(n) <==> 1 <= n <= 28
  {
    InRoomsFrom(n, 0);
  }
}
