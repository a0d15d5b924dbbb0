/** The parts of scopi_container that the solvers and the a priori velocity
    read and write: the particles 0 .. nbInactive - 1 are obstacles, the next
    nbActive ones move. */
module ScopiContainer {
  import opened LinAlg

  class Particles {
    /** nb_inactive() and nb_active(). */
    var nbInactive: nat
    var nbActive: nat
    /** m(): the mass of every particle. */
    var m: seq<real>
    /** j(), as get_omega turns it into a vector of R^3: the moments of inertia. */
    var j: seq<Vec3>
    /** vd(): the a priori (desired) velocity of every particle, dim entries each. */
    var vd: seq<seq<real>>
    /** omega(): the rotation of every particle, one scalar each in 2D. */
    var omega: seq<real>
    /** desired_omega(), as get_omega turns it into a vector of R^3. */
    var desiredOmega: seq<Vec3>

    /** Every active particle has a mass, a moment, dim velocity components and a desired rotation. */
    ghost predicate HoldsActive(dim: nat)
      reads this
    {
      var end := nbInactive + nbActive;
      && end <= |m| && end <= |j| && end <= |vd| && end <= |desiredOmega|
      && forall k :: nbInactive <= k < end ==> dim <= |vd[k]|
    }
  }
}
