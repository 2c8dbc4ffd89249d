/**
 * Graphics adapter name cleaning (`gpu/utils.py`): trademark markers are deleted and
 * nothing else changes; unlike the processor cleaner there is no cut and no trimming.
 */
module GpuUtils {
  import opened PyStr

  const Registered := "(R)"
  const Trademark := "(TM)"

  /** `clean_name`: delete every "(R)", scanning left to right, then every "(TM)". */
  function CleanName(name: string): (r: string)
    ensures |r| <= |name|
  {
    RemoveAll(RemoveAll(name, Registered), Trademark)
  }

  /** A name holding neither marker comes back unchanged. */
  lemma CleanNameUnmarked(name: string)
    requires !Contains(name, Registered) && !Contains(name, Trademark)
    ensures CleanName(name) == name
  {
    RemoveAllAbsent(name, Registered);
    RemoveAllAbsent(name, Trademark);
  }

  /** Every deleted "(R)" shortens the name by 3 and every deleted "(TM)" by 4; the name
      shrinks exactly when some marker is deleted. */
  lemma CleanNameLength(name: string)
    ensures var once := RemoveAll(name, Registered);
      |CleanName(name)| == |name| - 3 * Count(name, Registered) - 4 * Count(once, Trademark)
    ensures var once := RemoveAll(name, Registered);
      |CleanName(name)| < |name| <==> Contains(name, Registered) || Contains(once, Trademark)
  {
    var once := RemoveAll(name, Registered);
    RemoveAllLength(name, Registered);
    RemoveAllLength(once, Trademark);
    if Contains(name, Registered) {
      CountPositive(name, Registered);
    } else {
      RemoveAllAbsent(name, Registered);
    }
    if Contains(once, Trademark) {
      CountPositive(once, Trademark);
    } else {
      RemoveAllAbsent(once, Trademark);
    }
  }

  /** Spaces around the name are kept: there is no trimming. */
  lemma {:induction false} CleanNameKeepsSpaces(name: string)
    ensures CleanName(" " + name + " ") == " " + CleanName(name) + " "
  {
    RemoveAllKeepsLast(" " + name, ' ', Registered);
    RemoveAllSkip(" ", name, Registered);
    var once := RemoveAll(name, Registered);
    assert " " + name + " " == (" " + name) + [' '];
    RemoveAllKeepsLast(" " + once, ' ', Trademark);
    RemoveAllSkip(" ", once, Trademark);
  }

  /** The deletions run one after the other: removing an inner "(R)" can join a "(TM)"
      that the second pass then removes, so "(T(R)M)" vanishes entirely. */
  lemma CleanNameNested(name: string)
    requires name == "(T(R)M)"
    ensures CleanName(name) == ""
  {
    assert name == "(" + ("T" + (Registered + "M)"));
    RemoveAllAt(Registered, "M)");
    RemoveAllSkip("T", Registered + "M)", Registered);
    assert name[..3] != Registered by { assert name[..3][1] == 'T' && Registered[1] == 'R'; }
    assert name[1..] == "T" + (Registered + "M)");
    RemoveAllMismatch(name, Registered);
    assert "(" + ("T" + "M)") == Trademark + "";
    RemoveAllAt(Trademark, "");
  }
}
