/** `enroll_config` of limine.c: finds the checksum slot in a bootloader image by its signature
    and overwrites it. */
module ConfigEnroll {
  import opened Bytes

  /** "++CONFIG_B2SUM_SIGNATURE++". */
  const SIGNATURE: seq<Byte> :=
    [0x2b, 0x2b, 0x43, 0x4f, 0x4e, 0x46, 0x49, 0x47, 0x5f, 0x42, 0x32, 0x53, 0x55,
     0x4d, 0x5f, 0x53, 0x49, 0x47, 0x4e, 0x41, 0x54, 0x55, 0x52, 0x45, 0x2b, 0x2b]

  const SUM_SIZE: nat := 128
  const MIN_SIZE: nat := 26 + 128

  predicate Matches(image: seq<Byte>, sign: seq<Byte>, k: nat)
    requires |sign| == 26
  {
    k + 26 <= |image| && image[k..k + 26] == sign
  }

  predicate OccursAt(image: seq<Byte>, k: nat) { Matches(image, SIGNATURE, k) }

  /** The occurrences the search looks at end no later than `|image| - MIN_SIZE`. */
  predicate InWindow(image: seq<Byte>, k: nat) { k + 25 <= |image| - MIN_SIZE }

  /** The search loop. On a mismatch it falls back to one past the start of the failed match. */
  method Search(image: array<Byte>, sign: seq<Byte>) returns (found: bool, k: nat)
    requires image.Length >= MIN_SIZE && |sign| == 26
    ensures found ==> InWindow(image[..], k) && Matches(image[..], sign, k)
    ensures found ==> forall j: nat :: j < k ==> !Matches(image[..], sign, j)
    ensures !found ==> forall j: nat :: InWindow(image[..], j) ==> !Matches(image[..], sign, j)
  {
    var i, checked := 0, 0;
    while i < image.Length - MIN_SIZE + 1
      invariant checked <= i <= image.Length - MIN_SIZE + 1 && checked < 26
      invariant image[i - checked..i] == sign[..checked]
      invariant forall j: nat :: j < i - checked ==> !Matches(image[..], sign, j)
      decreases image.Length - (i - checked), 26 - checked
    {
      if image[i] != sign[checked] {
        assert !Matches(image[..], sign, i - checked);
        if checked > 0 {
          i, checked := i - checked, 0;
        }
        i := i + 1;
      } else {
        assert image[i - checked..i + 1] == image[i - checked..i] + [image[i]];
        assert sign[..checked + 1] == sign[..checked] + [sign[checked]];
        checked := checked + 1;
        if checked == 26 {
          assert image[..][i - 25..i + 1] == image[i - 25..i + 1];
          return true, i - 25;
        }
        i := i + 1;
      }
    }
    return false, 0;
  }

  /** The first occurrence in the window, as a definition. */
  ghost predicate IsSlot(image: seq<Byte>, k: nat) {
    InWindow(image, k) && OccursAt(image, k) && forall j: nat :: j < k ==> !OccursAt(image, j)
  }

  datatype Enrolled = Written(image: seq<Byte>) | TooSmall | NotFound

  /** What enrolling `sum` makes of an image. */
  ghost function Enroll(image: seq<Byte>, sum: seq<Byte>): (r: Enrolled)
    requires |sum| == SUM_SIZE
    ensures r.Written? ==> |r.image| == |image|
  {
    if |image| < MIN_SIZE then TooSmall
    else if exists k: nat :: IsSlot(image, k) then
      var k: nat :| IsSlot(image, k);
      Written(Patch(image, k + 26, sum))
    else NotFound
  }

  lemma SlotIsUnique(image: seq<Byte>, k: nat, l: nat)
    requires IsSlot(image, k) && IsSlot(image, l)
    ensures k == l
  {
  }

  lemma {:induction false} FirstOccurrence(image: seq<Byte>, j: nat)
    requires InWindow(image, j) && OccursAt(image, j)
    ensures exists k: nat :: IsSlot(image, k)
    decreases j
  {
    if i: nat :| i < j && OccursAt(image, i) {
      FirstOccurrence(image, i);
    } else {
      assert IsSlot(image, j);
    }
  }

  /** `enroll_config` on the file's bytes: the 128-byte overwrite stays inside the image. */
  method EnrollInPlace(image: array<Byte>, sum: seq<Byte>) returns (r: Enrolled)
    requires |sum| == SUM_SIZE
    modifies image
    ensures r == Enroll(old(image[..]), sum)
    ensures image[..] == if r.Written? then r.image else old(image[..])
  {
    if image.Length < MIN_SIZE {
      return TooSmall;
    }
    var found, k := Search(image, SIGNATURE);
    if !found {
      return NotFound;
    }
    assert IsSlot(image[..], k);
    forall l: nat | IsSlot(image[..], l) ensures l == k {
      SlotIsUnique(image[..], k, l);
    }
    forall o | 0 <= o < SUM_SIZE {
      image[k + 26 + o] := sum[o];
    }
    assert image[..] == Patch(old(image[..]), k + 26, sum);
    return Written(image[..]);
  }

  /** The signature's text stands at `k`. */
  predicate TextAt(image: seq<Byte>, k: nat) {
    k + |SIGN| <= |image| && forall i :: 0 <= i < |SIGN| ==> image[k + i] == SIGN[i] as int
  }

  lemma TextIsSignature(image: seq<Byte>, k: nat)
    ensures TextAt(image, k) <==> OccursAt(image, k)
  {
    SignatureText();
    if k + 26 <= |image| {
      var slice := image[k..k + 26];
      assert forall i :: 0 <= i < 26 ==> slice[i] == image[k + i];
    }
  }

  /** What enrolling does, on the bytes: behind the first signature, if it ends in the window, the 128
      bytes of the sum appear, and nothing else changes. */
  lemma EnrollMeans(image: seq<Byte>, sum: seq<Byte>, k: nat)
    requires |sum| == 128 && TextAt(image, k) && k + 25 <= |image| - 154
    requires forall j: nat :: j < k ==> !TextAt(image, j)
    ensures var r := Enroll(image, sum);
      && r.Written? && |r.image| == |image| && k + 154 <= |image|
      && r.image == image[..k + 26] + sum + image[k + 154..]
  {
    hide TextAt;
    TextIsSignature(image, k);
    forall j: nat | j < k ensures !OccursAt(image, j) {
      TextIsSignature(image, j);
    }
    assert IsSlot(image, k);
    forall l: nat | IsSlot(image, l) ensures l == k {
      SlotIsUnique(image, k, l);
    }
    assert Patch(image, k + 26, sum) == image[..k + 26] + sum + image[k + 154..];
  }

  /** When enrolling is refused: the image is shorter than signature and sum, or no signature ends in the
      window. */
  lemma EnrollRefuses(image: seq<Byte>, sum: seq<Byte>)
    requires |sum| == 128
    ensures |image| < 154 <==> Enroll(image, sum).TooSmall?
    ensures |image| >= 154 ==>
      (Enroll(image, sum).NotFound? <==> forall k: nat :: k + 25 <= |image| - 154 ==> !TextAt(image, k))
  {
    hide TextAt;
    forall k: nat ensures TextAt(image, k) <==> OccursAt(image, k) {
      TextIsSignature(image, k);
    }
    if |image| >= 154 {
      if k: nat :| k + 25 <= |image| - 154 && TextAt(image, k) {
        FirstOccurrence(image, k);
      }
    }
  }

  const SIGN: string := "++CONFIG_B2SUM_SIGNATURE++"

  lemma SignatureText()
    ensures |SIGN| == 26 && forall i :: 0 <= i < 26 ==> SIGNATURE[i] == SIGN[i] as int
  {
  }

  /** Overwriting behind the signature leaves the slot where it was. */
  lemma SlotStays(image: seq<Byte>, k: nat, sum: seq<Byte>)
    requires IsSlot(image, k) && |sum| == SUM_SIZE
    ensures IsSlot(Patch(image, k + 26, sum), k)
  {
    var after := Patch(image, k + 26, sum);
    assert after[k..k + 26] == image[k..k + 26];
    forall j: nat | j < k ensures !OccursAt(after, j) {
      assert !OccursAt(image, j);
      if j + 26 <= |image| {
        assert after[j..j + 26] == image[j..j + 26];
      }
    }
  }

  /** Enrolling twice is the second enrolment alone. */
  lemma SecondEnrolmentWins(image: seq<Byte>, first: seq<Byte>, second: seq<Byte>)
    requires |first| == |second| == SUM_SIZE && Enroll(image, first).Written?
    ensures Enroll(Enroll(image, first).image, second) == Enroll(image, second)
  {
    var k: nat :| IsSlot(image, k) && Enroll(image, first).image == Patch(image, k + 26, first);
    SlotStays(image, k, first);
    var after := Patch(image, k + 26, first);
    forall l: nat | IsSlot(after, l) ensures l == k {
      SlotIsUnique(after, k, l);
    }
    forall l: nat | IsSlot(image, l) ensures l == k {
      SlotIsUnique(image, k, l);
    }
    assert Patch(after, k + 26, second) == Patch(image, k + 26, second);
  }
}
